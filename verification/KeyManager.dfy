/** The key manager: registered key management systems, the default one, the key store, key
    creation, lookup and expiration. */
module KeyManager {
  import opened Wrappers
  import opened Utf16

  // ---- Keys -----------------------------------------------------------------------------

  /** Points in time are milliseconds since the epoch. */
  datatype Expiration = Expiration(expiryDate: Option<int>, removalDate: Option<int>)

  datatype Options = Options(ephemeral: Option<bool>, expiration: Option<Expiration>)

  datatype Meta = Meta(opts: Option<Options>, jwkThumbprint: Option<Text>, rest: map<Text, Text>)

  /** The empty text stands for an absent private key. */
  datatype Key = Key(kid: Text, keyType: Text, kms: Text, publicKeyHex: Text, privateKeyHex: Text, meta: Option<Meta>)

  /** What a key management system returns for a new key. */
  datatype PartialKey = PartialKey(kid: Text, keyType: Text, publicKeyHex: Text, privateKeyHex: Text,
      meta: Option<Meta>)

  /** `createKey` is given a seed for its randomness; None when it throws. */
  datatype Kms = Kms(createKey: (nat, Text, Meta) -> Option<PartialKey>)

  type Thumbprinter = Key -> Option<Text>

  datatype KeyManagerError = UnlistedDefault | UnknownKms | KmsFailed | NoThumbprint | KeyNotFound

  datatype CreateArgs = CreateArgs(kms: Option<Text>, keyType: Text, opts: Option<Options>, meta: Meta)

  const MINUTE := 60_000

  function Or<T>(a: Option<T>, b: Option<T>): Option<T> {
    if a.Some? then a else b
  }

  /** The object spread of a, then of b. */
  function Spread(a: Meta, b: Meta): Meta {
    Meta(Or(b.opts, a.opts), Or(b.jwkThumbprint, a.jwkThumbprint), a.rest + b.rest)
  }

  function Public(key: Key): Key {
    key.(privateKeyHex := [])
  }

  predicate HasKeyOptions(meta: Option<Meta>) {
    && meta.Some? && meta.value.opts.Some?
    && (meta.value.opts.value.ephemeral.Some? || meta.value.opts.value.expiration.Some?)
  }

  // ---- The state and its operations -----------------------------------------------------

  datatype Manager = Manager(kmses: map<Text, Kms>, defaultKms: Text, store: map<Text, Key>)

  /** The record with these entries; a later entry of the same name replaces an earlier one. */
  function FromEntries(entries: seq<(Text, Kms)>): map<Text, Kms> {
    if entries == [] then map[]
    else
      var last := entries[|entries| - 1];
      FromEntries(entries[..|entries| - 1])[last.0 := last.1]
  }

  predicate NeedsRemovalDate(meta: Meta) {
    && HasKeyOptions(Some(meta))
    && meta.opts.value.ephemeral == Some(true)
    && (meta.opts.value.expiration.None? || meta.opts.value.expiration.value.removalDate.None?)
  }

  function WithRemovalDate(meta: Meta, now: int): Meta
    requires meta.opts.Some?
  {
    var opts := meta.opts.value;
    var expiryDate := if opts.expiration.Some? then opts.expiration.value.expiryDate else None;
    meta.(opts := Some(opts.(expiration := Some(Expiration(expiryDate, Some(now + 5 * MINUTE))))))
  }

  /** The metadata a new key is requested with. */
  function RequestedMeta(args: CreateArgs, now: int): Meta {
    var meta := Spread(args.meta, Meta(args.opts, None, map[]));
    if NeedsRemovalDate(meta) then WithRemovalDate(meta, now) else meta
  }

  function Labelled(key: Key, thumbprintOf: Thumbprinter): Result<Key, KeyManagerError> {
    if key.meta.None? then Err(NoThumbprint)
    else if key.meta.value.jwkThumbprint.Some? then Ok(key)
    else match thumbprintOf(key)
         case None => Err(NoThumbprint)
         case Some(t) => Ok(key.(meta := Some(key.meta.value.(jwkThumbprint := Some(t)))))
  }

  /** The key that a creation imports into the store. */
  function NewKey(m: Manager, args: CreateArgs, now: int, seed: nat, thumbprintOf: Thumbprinter)
    : Result<Key, KeyManagerError>
  {
    var name := if args.kms.Some? then args.kms.value else m.defaultKms;
    if name !in m.kmses then Err(UnknownKms)
    else
      var meta := RequestedMeta(args, now);
      match m.kmses[name].createKey(seed, args.keyType, meta)
      case None => Err(KmsFailed)
      case Some(p) =>
        var own := if p.meta.Some? then Spread(meta, p.meta.value) else meta;
        Labelled(Key(p.kid, p.keyType, name, p.publicKeyHex, p.privateKeyHex, Some(own)), thumbprintOf)
  }

  /** The key holds what the system of this name returned. */
  predicate HoldsKey(key: Key, name: Text, p: PartialKey) {
    && key.kid == p.kid && key.keyType == p.keyType && key.kms == name
    && key.publicKeyHex == p.publicKeyHex && key.privateKeyHex == p.privateKeyHex
  }

  /** Whether expiration handling picks a key. The milliseconds of the expiry date, a number
      below 1000, are compared with the current time. */
  predicate Selected(key: Key, now: int) {
    && HasKeyOptions(key.meta)
    && key.meta.value.opts.value.expiration.Some?
    && var expiryDate := key.meta.value.opts.value.expiration.value.expiryDate;
       !(expiryDate.Some? && expiryDate.value % 1000 > now)
  }

  function Remaining(store: map<Text, Key>, now: int): map<Text, Key> {
    map kid | kid in store && !Selected(store[kid], now) :: store[kid]
  }

  /** One call; ImportKey and DeleteKey stand for the inherited operations. */
  datatype Operation =
    | SetKms(name: Text, kms: Kms)
    | SetDefault(name: Text)
    | CreateKey(args: CreateArgs, now: int, seed: nat)
    | ImportKey(key: Key)
    | DeleteKey(kid: Text)
    | HandleExpirations(now: int, skipRemovals: bool)

  /** The state after an operation; one that fails changes nothing. */
  function Step(m: Manager, op: Operation, thumbprintOf: Thumbprinter): Manager {
    match op
    case SetKms(name, kms) => m.(kmses := m.kmses[name := kms])
    case SetDefault(name) => if name in m.kmses then m.(defaultKms := name) else m
    case CreateKey(args, now, seed) =>
      (match NewKey(m, args, now, seed, thumbprintOf)
       case Err(_) => m
       case Ok(key) => m.(store := m.store[key.kid := key]))
    case ImportKey(key) => m.(store := m.store[key.kid := key])
    case DeleteKey(kid) => m.(store := m.store - {kid})
    case HandleExpirations(now, skipRemovals) => if skipRemovals then m else m.(store := Remaining(m.store, now))
  }

  // ---- Lookup -----------------------------------------------------------------------------

  /** The thumbprint a key is found by: the recorded one, else the computed one. */
  function LabelOf(key: Key, thumbprintOf: Thumbprinter): Option<Text> {
    if key.meta.Some? && key.meta.value.jwkThumbprint.Some? then key.meta.value.jwkThumbprint else thumbprintOf(key)
  }

  predicate Matches(key: Key, name: Text, thumbprintOf: Thumbprinter) {
    key.publicKeyHex == name || LabelOf(key, thumbprintOf) == Some(name)
  }

  ghost predicate Filed(store: map<Text, Key>) {
    forall kid <- store :: store[kid].kid == kid
  }

  function KidsOf(keys: seq<Key>): set<Text> {
    set i | 0 <= i < |keys| :: keys[i].kid
  }

  predicate PublicIn(key: Key, store: map<Text, Key>) {
    key.kid in store && key == Public(store[key.kid])
  }

  /** The keys of the store without their private parts, each once, in any order. */
  ghost predicate Lists(keys: seq<Key>, store: map<Text, Key>) {
    && KidsOf(keys) == store.Keys && |keys| == |store|
    && forall i :: 0 <= i < |keys| ==> PublicIn(keys[i], store)
  }

  /** What a lookup may return: a stored kid comes first; otherwise a stored key with that public
      key or thumbprint; failure only if there is none, or a thumbprint cannot be computed. */
  ghost predicate LookupAllows(store: map<Text, Key>, name: Text, r: Result<Key, KeyManagerError>,
                               thumbprintOf: Thumbprinter)
  {
    if name in store then r == Ok(store[name])
    else match r
         case Ok(key) => key.kid in store && key == Public(store[key.kid]) && Matches(key, name, thumbprintOf)
         case Err(_) =>
           || (forall kid <- store :: !Matches(Public(store[kid]), name, thumbprintOf))
           || exists kid <- store :: LabelOf(Public(store[kid]), thumbprintOf) == None
  }

  // ---- The manager ----------------------------------------------------------------------

  class SphereonKeyManager {
    var availableKmses: map<Text, Kms>
    var defaultKms: Text
    var kmsStore: map<Text, Key>
    const thumbprintOf: Thumbprinter

    constructor (kmses: map<Text, Kms>, defaultKms: Text, store: map<Text, Key>, thumbprintOf: Thumbprinter)
      ensures State() == Manager(kmses, defaultKms, store) && this.thumbprintOf == thumbprintOf
    {
      this.availableKmses, this.defaultKms, this.kmsStore := kmses, defaultKms, store;
      this.thumbprintOf := thumbprintOf;
    }

    ghost function State(): Manager
      reads this
    {
      Manager(availableKmses, defaultKms, kmsStore)
    }

    /** The source's constructor, which throws when the default is not registered. */
    static method Make(store: map<Text, Key>, kms: seq<(Text, Kms)>, defaultKms: Option<Text>,
                       thumbprintOf: Thumbprinter)
      returns (r: Result<SphereonKeyManager, KeyManagerError>)
      ensures match r
              case Ok(manager) =>
                && fresh(manager) && manager.thumbprintOf == thumbprintOf
                && manager.availableKmses == FromEntries(kms) && manager.kmsStore == store
                && manager.defaultKms in manager.availableKmses
                && (defaultKms.Some? ==> manager.defaultKms == defaultKms.value)
                && (defaultKms.None? ==> kms != [] && manager.defaultKms == kms[0].0)
              case Err(_) => if defaultKms.Some? then defaultKms.value !in FromEntries(kms) else kms == []
    {
      var kmses := FromEntries(kms);
      if defaultKms.None? && kms == [] {
        return Err(UnlistedDefault);
      }
      var chosen := if defaultKms.Some? then defaultKms.value else kms[0].0;
      if kms != [] {
        FirstIsListed(kms);
      }
      if chosen !in kmses {
        return Err(UnlistedDefault);
      }
      var manager := new SphereonKeyManager(kmses, chosen, store, thumbprintOf);
      return Ok(manager);
    }

    method SetDefaultKms(name: Text) returns (error: Option<KeyManagerError>)
      modifies this`defaultKms
      ensures State() == Step(old(State()), SetDefault(name), thumbprintOf)
      ensures error.None? <==> name in availableKmses
    {
      if name !in availableKmses {
        return Some(UnlistedDefault);
      }
      defaultKms := name;
      return None;
    }

    method AddKms(name: Text, kms: Kms)
      modifies this`availableKmses
      ensures State() == Step(old(State()), SetKms(name, kms), thumbprintOf)
    {
      availableKmses := availableKmses[name := kms];
    }

    /** The metadata asked for, with a removal date five minutes ahead for an ephemeral key that has
        none. */
    static method MetaFor(args: CreateArgs, now: int) returns (meta: Meta)
      ensures meta == RequestedMeta(args, now)
    {
      var opts := if args.opts.Some? then args.opts else args.meta.opts;
      if opts.Some? && opts.value.ephemeral == Some(true) {
        var expiration := if opts.value.expiration.Some? then opts.value.expiration.value else Expiration(None, None);
        if expiration.removalDate.None? {
          opts := Some(opts.value.(expiration := Some(expiration.(removalDate := Some(now + 5 * 60 * 1000)))));
        }
      }
      meta := Meta(opts, args.meta.jwkThumbprint, args.meta.rest);
      assert args.meta.rest + map[] == args.meta.rest;
    }

    method KeyManagerCreate(args: CreateArgs, now: int, seed: nat) returns (r: Result<Key, KeyManagerError>)
      modifies this`kmsStore
      ensures State() == Step(old(State()), CreateKey(args, now, seed), thumbprintOf)
      ensures match NewKey(old(State()), args, now, seed, thumbprintOf)
              case Err(error) => r == Err(error)
              case Ok(key) => r == Ok(Public(key)) && kmsStore[key.kid] == key
      ensures r.Ok? ==>
                var name := if args.kms.Some? then args.kms.value else defaultKms;
                && name in availableKmses && r.value.kid in kmsStore
                && exists meta: Meta ::
                     var p := availableKmses[name].createKey(seed, args.keyType, meta);
                     p.Some? && HoldsKey(kmsStore[r.value.kid], name, p.value)
    {
      var name := if args.kms.Some? then args.kms.value else defaultKms;
      if name !in availableKmses {
        return Err(UnknownKms);
      }
      var meta := MetaFor(args, now);
      var partial := availableKmses[name].createKey(seed, args.keyType, meta);
      if partial.None? {
        return Err(KmsFailed);
      }
      var p := partial.value;
      assert availableKmses[name].createKey(seed, args.keyType, meta) == Some(p);
      if p.meta.Some? {
        var own := p.meta.value;
        meta := Meta(if own.opts.Some? then own.opts else meta.opts,
                     if own.jwkThumbprint.Some? then own.jwkThumbprint else meta.jwkThumbprint, meta.rest + own.rest);
      }
      var key := Key(p.kid, p.keyType, name, p.publicKeyHex, p.privateKeyHex, Some(meta));
      if meta.jwkThumbprint.None? {
        var thumbprint := thumbprintOf(key);
        if thumbprint.None? {
          return Err(NoThumbprint);
        }
        key := key.(meta := Some(meta.(jwkThumbprint := thumbprint)));
      }
      kmsStore := kmsStore[key.kid := key];
      return Ok(if key.privateKeyHex != [] then key.(privateKeyHex := []) else key);
    }

    /** The store lists its keys in an order of its own. */
    method KeyManagerListKeys() returns (keys: seq<Key>)
      requires Filed(kmsStore)
      ensures Lists(keys, kmsStore)
    {
      keys := [];
      var pending := kmsStore.Keys;
      while pending != {}
        invariant pending <= kmsStore.Keys && KidsOf(keys) == kmsStore.Keys - pending
        invariant |keys| + |pending| == |kmsStore|
        invariant forall i :: 0 <= i < |keys| ==> PublicIn(keys[i], kmsStore)
        decreases pending
      {
        var kid :| kid in pending;
        var key := Public(kmsStore[kid]);
        KidsGrow(keys, key);
        keys := keys + [key];
        pending := pending - {kid};
      }
    }

    method KeyManagerGet(name: Text) returns (r: Result<Key, KeyManagerError>)
      requires Filed(kmsStore)
      ensures LookupAllows(kmsStore, name, r, thumbprintOf)
      ensures (forall kid <- kmsStore :: LabelOf(Public(kmsStore[kid]), thumbprintOf).Some?) ==>
                (r.Err? <==> name !in kmsStore &&
                             forall kid <- kmsStore :: !Matches(Public(kmsStore[kid]), name, thumbprintOf))
    {
      if name in kmsStore {
        return Ok(kmsStore[name]);
      }
      var keys := KeyManagerListKeys();
      var i := 0;
      while i < |keys|
        invariant 0 <= i <= |keys|
        invariant forall j :: 0 <= j < i ==> !Matches(keys[j], name, thumbprintOf)
      {
        if keys[i].publicKeyHex == name {
          return Ok(keys[i]);
        }
        var thumbprint := if keys[i].meta.Some? && keys[i].meta.value.jwkThumbprint.Some?
                          then keys[i].meta.value.jwkThumbprint else thumbprintOf(keys[i]);
        if thumbprint.None? {
          return Err(NoThumbprint);
        }
        if thumbprint.value == name {
          return Ok(keys[i]);
        }
        i := i + 1;
      }
      assert forall kid <- kmsStore :: kid in KidsOf(keys);
      return Err(KeyNotFound);
    }

    method KeyManagerDelete(kid: Text)
      modifies this`kmsStore
      ensures State() == Step(old(State()), DeleteKey(kid), thumbprintOf)
    {
      kmsStore := kmsStore - {kid};
    }

    /** The deletions may finish in any order. The keys returned are those listed before. */
    method KeyManagerHandleExpirations(now: int, skipRemovals: bool) returns (keys: seq<Key>)
      requires Filed(kmsStore)
      modifies this`kmsStore
      ensures State() == Step(old(State()), HandleExpirations(now, skipRemovals), thumbprintOf)
      ensures Lists(keys, old(kmsStore))
      ensures kmsStore.Keys <= old(kmsStore).Keys
      ensures forall kid <- old(kmsStore) ::
                && (kid in kmsStore <==> skipRemovals || !Selected(old(kmsStore)[kid], now))
                && (kid in kmsStore ==> kmsStore[kid] == old(kmsStore)[kid])
    {
      keys := KeyManagerListKeys();
      var expired := set i | 0 <= i < |keys| && Selected(keys[i], now) :: keys[i].kid;
      ListedExpired(keys, kmsStore, now);
      if !skipRemovals {
        DeleteInAnyOrder(expired);
      }
    }

    method DeleteInAnyOrder(kids: set<Text>)
      modifies this`kmsStore
      ensures kmsStore == old(kmsStore) - kids
    {
      var pending := kids;
      while pending != {}
        invariant pending <= kids && kmsStore == old(kmsStore) - (kids - pending)
        decreases pending
      {
        var kid :| kid in pending;
        KeyManagerDelete(kid);
        pending := pending - {kid};
        assert kids - pending == kids - (pending + {kid}) + {kid};
      }
    }
  }

  /** The kids selected from a listing are those of the selected keys in the store. */
  lemma ListedExpired(keys: seq<Key>, store: map<Text, Key>, now: int)
    requires Lists(keys, store)
    ensures store - (set i | 0 <= i < |keys| && Selected(keys[i], now) :: keys[i].kid) == Remaining(store, now)
  {
    var expired := set i | 0 <= i < |keys| && Selected(keys[i], now) :: keys[i].kid;
    forall kid | kid in store ensures kid in expired <==> Selected(store[kid], now) {
      assert kid in KidsOf(keys);
      var i :| 0 <= i < |keys| && keys[i].kid == kid;
      assert Selected(keys[i], now) == Selected(store[kid], now);
    }
  }

  lemma {:induction false} FirstIsListed(entries: seq<(Text, Kms)>)
    requires entries != []
    ensures entries[0].0 in FromEntries(entries)
  {
    if |entries| > 1 {
      FirstIsListed(entries[..|entries| - 1]);
    }
  }

  lemma KidsGrow(keys: seq<Key>, key: Key)
    ensures KidsOf(keys + [key]) == KidsOf(keys) + {key.kid}
  {
    assert forall i :: 0 <= i < |keys| ==> (keys + [key])[i] == keys[i];
    assert (keys + [key])[|keys|] == key;
    assert forall kid <- KidsOf(keys) :: kid in KidsOf(keys + [key]) by {
      forall kid | kid in KidsOf(keys) ensures kid in KidsOf(keys + [key]) {
        var i :| 0 <= i < |keys| && keys[i].kid == kid;
        assert (keys + [key])[i].kid == kid;
      }
    }
  }

  // ---- Runs -----------------------------------------------------------------------------

  function Run(m: Manager, ops: seq<Operation>, thumbprintOf: Thumbprinter): Manager {
    if ops == [] then m
    else Step(Run(m, ops[..|ops| - 1], thumbprintOf), ops[|ops| - 1], thumbprintOf)
  }

  /** The kids of created keys that are still stored and have not been imported over. */
  function Live(m: Manager, ops: seq<Operation>, thumbprintOf: Thumbprinter): set<Text> {
    if ops == [] then {}
    else
      var front := ops[..|ops| - 1];
      LiveAfter(Run(m, front, thumbprintOf), Live(m, front, thumbprintOf), ops[|ops| - 1], thumbprintOf)
  }

  function LiveAfter(m: Manager, live: set<Text>, op: Operation, thumbprintOf: Thumbprinter): set<Text> {
    match op
    case CreateKey(args, now, seed) =>
      (match NewKey(m, args, now, seed, thumbprintOf)
       case Err(_) => live
       case Ok(key) => live + {key.kid})
    case ImportKey(key) => live - {key.kid}
    case DeleteKey(kid) => live - {kid}
    case HandleExpirations(_, _) => live * Step(m, op, thumbprintOf).store.Keys
    case _ => live
  }

  ghost predicate Invariant(m: Manager, live: set<Text>) {
    && m.defaultKms in m.kmses && Filed(m.store)
    && forall kid <- live ::
         && kid in m.store && m.store[kid].kms in m.kmses
         && m.store[kid].meta.Some? && m.store[kid].meta.value.jwkThumbprint.Some?
  }

  lemma {:induction false} StepKeepsInvariant(m: Manager, live: set<Text>, op: Operation, thumbprintOf: Thumbprinter)
    requires Invariant(m, live)
    ensures Invariant(Step(m, op, thumbprintOf), LiveAfter(m, live, op, thumbprintOf))
    ensures m.kmses.Keys <= Step(m, op, thumbprintOf).kmses.Keys
  {
  }

  /** Over every run: the default is registered, registered names stay, and each created key
      that is still stored names a registered system and carries a thumbprint. */
  lemma {:induction false} RunKeepsInvariant(m: Manager, ops: seq<Operation>, thumbprintOf: Thumbprinter)
    requires m.defaultKms in m.kmses && Filed(m.store)
    ensures Invariant(Run(m, ops, thumbprintOf), Live(m, ops, thumbprintOf))
    ensures m.kmses.Keys <= Run(m, ops, thumbprintOf).kmses.Keys
  {
    if ops != [] {
      var front := ops[..|ops| - 1];
      RunKeepsInvariant(m, front, thumbprintOf);
      StepKeepsInvariant(Run(m, front, thumbprintOf), Live(m, front, thumbprintOf), ops[|ops| - 1], thumbprintOf);
    }
  }

  ghost predicate CreatedAt(m: Manager, ops: seq<Operation>, i: nat, kid: Text, thumbprintOf: Thumbprinter)
    requires i < |ops|
  {
    && ops[i].CreateKey?
    && var r := NewKey(Run(m, ops[..i], thumbprintOf), ops[i].args, ops[i].now, ops[i].seed, thumbprintOf);
       r.Ok? && r.value.kid == kid
  }

  /** After operation j the kid is still stored, and not by an import. */
  ghost predicate StaysAt(m: Manager, ops: seq<Operation>, j: nat, kid: Text, thumbprintOf: Thumbprinter)
    requires j < |ops|
  {
    kid in Run(m, ops[..j + 1], thumbprintOf).store && !(ops[j].ImportKey? && ops[j].key.kid == kid)
  }

  ghost predicate StaysAfter(m: Manager, ops: seq<Operation>, i: nat, kid: Text, thumbprintOf: Thumbprinter) {
    forall j: nat :: i < j < |ops| ==> StaysAt(m, ops, j, kid, thumbprintOf)
  }

  lemma {:induction false} PrefixAgrees(m: Manager, front: seq<Operation>, last: Operation, i: nat, kid: Text,
                                        thumbprintOf: Thumbprinter)
    requires i < |front|
    ensures CreatedAt(m, front + [last], i, kid, thumbprintOf) == CreatedAt(m, front, i, kid, thumbprintOf)
    ensures StaysAt(m, front + [last], i, kid, thumbprintOf) == StaysAt(m, front, i, kid, thumbprintOf)
  {
    assert (front + [last])[..i] == front[..i] && (front + [last])[..i + 1] == front[..i + 1];
  }

  lemma {:induction false} LastStep(m: Manager, front: seq<Operation>, last: Operation, kid: Text,
                                    thumbprintOf: Thumbprinter)
    ensures var ops, before := front + [last], Run(m, front, thumbprintOf);
            && Run(m, ops, thumbprintOf) == Step(before, last, thumbprintOf)
            && Live(m, ops, thumbprintOf) == LiveAfter(before, Live(m, front, thumbprintOf), last, thumbprintOf)
            && (CreatedAt(m, ops, |front|, kid, thumbprintOf) <==>
                last.CreateKey? && var r := NewKey(before, last.args, last.now, last.seed, thumbprintOf);
                                   r.Ok? && r.value.kid == kid)
            && (StaysAt(m, ops, |front|, kid, thumbprintOf) <==>
                kid in Step(before, last, thumbprintOf).store && !(last.ImportKey? && last.key.kid == kid))
  {
    var ops := front + [last];
    assert ops[..|ops| - 1] == front && ops[..|front|] == front && ops[..|front| + 1] == ops;
  }

  lemma {:induction false} LiveStep(m: Manager, front: seq<Operation>, last: Operation, kid: Text,
                                    thumbprintOf: Thumbprinter)
    requires m.defaultKms in m.kmses && Filed(m.store)
    ensures var ops := front + [last];
            kid in Live(m, ops, thumbprintOf) <==>
            || CreatedAt(m, ops, |front|, kid, thumbprintOf)
            || (kid in Live(m, front, thumbprintOf) && StaysAt(m, ops, |front|, kid, thumbprintOf))
  {
    LastStep(m, front, last, kid, thumbprintOf);
    RunKeepsInvariant(m, front, thumbprintOf);
  }

  ghost predicate LiveSince(m: Manager, ops: seq<Operation>, i: nat, kid: Text, thumbprintOf: Thumbprinter)
    requires i < |ops|
  {
    CreatedAt(m, ops, i, kid, thumbprintOf) && StaysAfter(m, ops, i, kid, thumbprintOf)
  }

  /** What counts as live: created by some operation of the run, and stored ever since without
      having been imported over. */
  lemma {:induction false} LiveIff(m: Manager, ops: seq<Operation>, kid: Text, thumbprintOf: Thumbprinter)
    requires m.defaultKms in m.kmses && Filed(m.store)
    ensures kid in Live(m, ops, thumbprintOf) <==>
            exists i: nat :: i < |ops| && LiveSince(m, ops, i, kid, thumbprintOf)
  {
    if ops != [] {
      var front, last := ops[..|ops| - 1], ops[|ops| - 1];
      assert ops == front + [last];
      LiveIff(m, front, kid, thumbprintOf);
      LiveStep(m, front, last, kid, thumbprintOf);
      forall i: nat | i < |front|
        ensures LiveSince(m, ops, i, kid, thumbprintOf) <==>
                LiveSince(m, front, i, kid, thumbprintOf) && StaysAt(m, ops, |front|, kid, thumbprintOf)
      {
        StaysOneMore(m, front, last, i, kid, thumbprintOf);
      }
      assert LiveSince(m, ops, |front|, kid, thumbprintOf) <==> CreatedAt(m, ops, |front|, kid, thumbprintOf);
    }
  }

  lemma {:induction false} StaysOneMore(m: Manager, front: seq<Operation>, last: Operation, i: nat, kid: Text,
                                        thumbprintOf: Thumbprinter)
    requires i < |front|
    ensures CreatedAt(m, front + [last], i, kid, thumbprintOf) == CreatedAt(m, front, i, kid, thumbprintOf)
    ensures StaysAfter(m, front + [last], i, kid, thumbprintOf) <==>
            StaysAfter(m, front, i, kid, thumbprintOf) && StaysAt(m, front + [last], |front|, kid, thumbprintOf)
  {
    forall j: nat | j < |front|
      ensures CreatedAt(m, front + [last], j, kid, thumbprintOf) == CreatedAt(m, front, j, kid, thumbprintOf)
      ensures StaysAt(m, front + [last], j, kid, thumbprintOf) == StaysAt(m, front, j, kid, thumbprintOf)
    {
      PrefixAgrees(m, front, last, j, kid, thumbprintOf);
    }
  }

  /** After any run, a created key still stored is found by its kid, and looking its thumbprint
      up returns some key with that kid, public key or thumbprint, as long as no thumbprint of a
      stored key is missing and incomputable. */
  lemma {:induction false} LiveKeysAreFound(m: Manager, ops: seq<Operation>, kid: Text, thumbprintOf: Thumbprinter,
                                            r: Result<Key, KeyManagerError>)
    requires m.defaultKms in m.kmses && Filed(m.store) && kid in Live(m, ops, thumbprintOf)
    ensures var store := Run(m, ops, thumbprintOf).store;
            && kid in store && store[kid].meta.Some? && store[kid].meta.value.jwkThumbprint.Some?
            && (LookupAllows(store, kid, r, thumbprintOf) ==> r == Ok(store[kid]))
            && var thumbprint := store[kid].meta.value.jwkThumbprint.value;
               ((forall k <- store :: LabelOf(Public(store[k]), thumbprintOf).Some?)
                && LookupAllows(store, thumbprint, r, thumbprintOf) ==>
                r.Ok? && (r.value.kid == thumbprint || Matches(r.value, thumbprint, thumbprintOf)))
  {
    RunKeepsInvariant(m, ops, thumbprintOf);
    var store := Run(m, ops, thumbprintOf).store;
    var thumbprint := store[kid].meta.value.jwkThumbprint.value;
    assert Matches(Public(store[kid]), thumbprint, thumbprintOf);
    assert Filed(store);
  }

  // ---- Expirations ----------------------------------------------------------------------

  /** Only the milliseconds of an expiry date are compared, so from one second after the epoch on
      the dates do not matter: a key is removed exactly if it carries an expiration at all, even one
      in the future. */
  lemma EveryExpirationCounts(key: Key, now: int)
    ensures Selected(key, now) <==>
            && HasExpiration(key)
            && var expiryDate := key.meta.value.opts.value.expiration.value.expiryDate;
               expiryDate.None? || expiryDate.value % 1000 <= now
    ensures HasExpiration(key) <==> key.meta.Some? && key.meta.value.opts.Some? &&
                                    key.meta.value.opts.value.expiration.Some?
    ensures now >= 999 ==> (Selected(key, now) <==> HasExpiration(key))
  {
  }

  predicate HasExpiration(key: Key) {
    HasKeyOptions(key.meta) && key.meta.value.opts.value.expiration.Some?
  }

  /** The operation stores no key. */
  predicate IsQuiet(op: Operation) { !op.CreateKey? && !op.ImportKey? }

  /** Once expirations have been handled, any run that stores no key leaves further handlings
      nothing to remove, at any time. */
  lemma {:induction false} NothingLeftToRemove(m: Manager, now: int, ops: seq<Operation>, later: int,
                                               thumbprintOf: Thumbprinter)
    requires now >= 999 && forall op <- ops :: IsQuiet(op)
    ensures var after := Run(Step(m, HandleExpirations(now, false), thumbprintOf), ops, thumbprintOf);
            && (forall kid <- after.store :: !HasExpiration(after.store[kid]))
            && Step(after, HandleExpirations(later, false), thumbprintOf) == after
  {
    var first := Step(m, HandleExpirations(now, false), thumbprintOf);
    if ops != [] {
      var front, last := ops[..|ops| - 1], ops[|ops| - 1];
      assert last in ops;
      NothingLeftToRemove(m, now, front, later, thumbprintOf);
    }
    var after := Run(first, ops, thumbprintOf);
    assert Remaining(after.store, later) == after.store;
  }

  /** The system leaves the requested options alone. */
  ghost predicate KeepsOptions(kms: Kms) {
    forall seed: nat, keyType: Text, meta: Meta ::
      match kms.createKey(seed, keyType, meta)
      case None => true
      case Some(p) => p.meta.Some? && p.meta.value.opts.Some? ==> p.meta.value.opts == meta.opts
  }

  predicate IsEphemeral(key: Key) {
    key.meta.Some? && key.meta.value.opts.Some? && key.meta.value.opts.value.ephemeral == Some(true)
  }

  /** The kids of keys created as ephemeral that are still stored as created. */
  function Ephemeral(m: Manager, ops: seq<Operation>, thumbprintOf: Thumbprinter): set<Text> {
    if ops == [] then {}
    else
      var front := ops[..|ops| - 1];
      EphemeralAfter(Run(m, front, thumbprintOf), Ephemeral(m, front, thumbprintOf), ops[|ops| - 1], thumbprintOf)
  }

  function EphemeralAfter(m: Manager, kids: set<Text>, op: Operation, thumbprintOf: Thumbprinter): set<Text> {
    match op
    case CreateKey(args, now, seed) =>
      (match NewKey(m, args, now, seed, thumbprintOf)
       case Err(_) => kids
       case Ok(key) => if IsEphemeral(key) then kids + {key.kid} else kids - {key.kid})
    case _ => LiveAfter(m, kids, op, thumbprintOf)
  }

  ghost predicate CreatedEphemeralAt(m: Manager, ops: seq<Operation>, i: nat, kid: Text, thumbprintOf: Thumbprinter)
    requires i < |ops|
  {
    && CreatedAt(m, ops, i, kid, thumbprintOf)
    && IsEphemeral(NewKey(Run(m, ops[..i], thumbprintOf), ops[i].args, ops[i].now, ops[i].seed, thumbprintOf).value)
  }

  /** From operation i on the kid stays as that operation made it. */
  ghost predicate KeptSince(m: Manager, ops: seq<Operation>, i: nat, kid: Text, thumbprintOf: Thumbprinter) {
    forall j: nat :: i < j < |ops| ==>
      StaysAt(m, ops, j, kid, thumbprintOf) && !CreatedAt(m, ops, j, kid, thumbprintOf)
  }

  lemma {:induction false} KeptOneMore(m: Manager, front: seq<Operation>, last: Operation, i: nat, kid: Text,
                                       thumbprintOf: Thumbprinter)
    requires i < |front|
    ensures CreatedEphemeralAt(m, front + [last], i, kid, thumbprintOf) ==
            CreatedEphemeralAt(m, front, i, kid, thumbprintOf)
    ensures KeptSince(m, front + [last], i, kid, thumbprintOf) <==>
            && KeptSince(m, front, i, kid, thumbprintOf) && StaysAt(m, front + [last], |front|, kid, thumbprintOf)
            && !CreatedAt(m, front + [last], |front|, kid, thumbprintOf)
  {
    assert (front + [last])[..i] == front[..i];
    forall j: nat | j < |front|
      ensures CreatedAt(m, front + [last], j, kid, thumbprintOf) == CreatedAt(m, front, j, kid, thumbprintOf)
      ensures StaysAt(m, front + [last], j, kid, thumbprintOf) == StaysAt(m, front, j, kid, thumbprintOf)
    {
      PrefixAgrees(m, front, last, j, kid, thumbprintOf);
    }
  }

  lemma {:induction false} EphemeralStored(m: Manager, ops: seq<Operation>, thumbprintOf: Thumbprinter)
    ensures forall kid <- Ephemeral(m, ops, thumbprintOf) :: kid in Run(m, ops, thumbprintOf).store
  {
    if ops != [] {
      EphemeralStored(m, ops[..|ops| - 1], thumbprintOf);
    }
  }

  lemma {:induction false} EphemeralStep(m: Manager, front: seq<Operation>, last: Operation, kid: Text,
                                         thumbprintOf: Thumbprinter)
    ensures var ops := front + [last];
            kid in Ephemeral(m, ops, thumbprintOf) <==>
            if CreatedAt(m, ops, |front|, kid, thumbprintOf) then CreatedEphemeralAt(m, ops, |front|, kid, thumbprintOf)
            else kid in Ephemeral(m, front, thumbprintOf) && StaysAt(m, ops, |front|, kid, thumbprintOf)
  {
    var ops := front + [last];
    assert ops[..|ops| - 1] == front && ops[..|front|] == front && ops[|front|] == last;
    EphemeralStored(m, front, thumbprintOf);
    LastStep(m, front, last, kid, thumbprintOf);
  }

  ghost predicate EphemeralSince(m: Manager, ops: seq<Operation>, i: nat, kid: Text, thumbprintOf: Thumbprinter)
    requires i < |ops|
  {
    CreatedEphemeralAt(m, ops, i, kid, thumbprintOf) && KeptSince(m, ops, i, kid, thumbprintOf)
  }

  /** What counts as ephemeral: created so by some operation of the run, and stored ever since
      without having been created again or imported over. */
  lemma {:induction false} EphemeralIff(m: Manager, ops: seq<Operation>, kid: Text, thumbprintOf: Thumbprinter)
    ensures kid in Ephemeral(m, ops, thumbprintOf) <==>
            exists i: nat :: i < |ops| && EphemeralSince(m, ops, i, kid, thumbprintOf)
  {
    if ops != [] {
      var front, last := ops[..|ops| - 1], ops[|ops| - 1];
      assert ops == front + [last];
      EphemeralIff(m, front, kid, thumbprintOf);
      EphemeralStep(m, front, last, kid, thumbprintOf);
      forall i: nat | i < |front|
        ensures EphemeralSince(m, ops, i, kid, thumbprintOf) <==>
                && EphemeralSince(m, front, i, kid, thumbprintOf) && StaysAt(m, ops, |front|, kid, thumbprintOf)
                && !CreatedAt(m, ops, |front|, kid, thumbprintOf)
      {
        KeptOneMore(m, front, last, i, kid, thumbprintOf);
      }
      assert EphemeralSince(m, ops, |front|, kid, thumbprintOf) <==>
             CreatedEphemeralAt(m, ops, |front|, kid, thumbprintOf);
    }
  }

  /** A new ephemeral key carries a removal date: the requested one, else one five minutes ahead. */
  lemma {:induction false} EphemeralGetsRemovalDate(m: Manager, args: CreateArgs, now: int, seed: nat,
                                                    thumbprintOf: Thumbprinter)
    requires SystemsKeepOptions(m)
    requires NewKey(m, args, now, seed, thumbprintOf).Ok? && IsEphemeral(NewKey(m, args, now, seed, thumbprintOf).value)
    ensures var key := NewKey(m, args, now, seed, thumbprintOf).value;
            var asked := if args.opts.Some? then args.opts else args.meta.opts;
            && HasExpiration(key) && asked.Some?
            && key.meta.value.opts.value.expiration.value.removalDate ==
               if asked.value.expiration.Some? && asked.value.expiration.value.removalDate.Some?
               then asked.value.expiration.value.removalDate else Some(now + 5 * MINUTE)
  {
    var name := if args.kms.Some? then args.kms.value else m.defaultKms;
    assert KeepsOptions(m.kmses[name]);
    var meta := RequestedMeta(args, now);
    assert match m.kmses[name].createKey(seed, args.keyType, meta)
           case None => true
           case Some(p) => p.meta.Some? && p.meta.value.opts.Some? ==> p.meta.value.opts == meta.opts;
  }

  ghost predicate SystemsKeepOptions(m: Manager) {
    forall name <- m.kmses :: KeepsOptions(m.kmses[name])
  }

  ghost predicate AllKeepOptions(m: Manager, ops: seq<Operation>) {
    SystemsKeepOptions(m) && forall op <- ops :: op.SetKms? ==> KeepsOptions(op.kms)
  }

  ghost predicate AllExpire(m: Manager, kids: set<Text>) {
    forall kid <- kids :: kid in m.store && HasExpiration(m.store[kid])
  }

  lemma {:induction false} StepKeepsExpirations(m: Manager, kids: set<Text>, op: Operation, thumbprintOf: Thumbprinter)
    requires SystemsKeepOptions(m) && AllExpire(m, kids) && (op.SetKms? ==> KeepsOptions(op.kms))
    ensures SystemsKeepOptions(Step(m, op, thumbprintOf))
    ensures AllExpire(Step(m, op, thumbprintOf), EphemeralAfter(m, kids, op, thumbprintOf))
  {
    if op.CreateKey? {
      var created := NewKey(m, op.args, op.now, op.seed, thumbprintOf);
      if created.Ok? && IsEphemeral(created.value) {
        EphemeralGetsRemovalDate(m, op.args, op.now, op.seed, thumbprintOf);
      }
    }
  }

  /** In every run, each ephemeral key that is still stored carries an expiration. */
  lemma {:induction false} EphemeralKeysExpire(m: Manager, ops: seq<Operation>, thumbprintOf: Thumbprinter)
    requires AllKeepOptions(m, ops)
    ensures SystemsKeepOptions(Run(m, ops, thumbprintOf))
    ensures AllExpire(Run(m, ops, thumbprintOf), Ephemeral(m, ops, thumbprintOf))
  {
    if ops != [] {
      var front, last := ops[..|ops| - 1], ops[|ops| - 1];
      assert last in ops;
      EphemeralKeysExpire(m, front, thumbprintOf);
      StepKeepsExpirations(Run(m, front, thumbprintOf), Ephemeral(m, front, thumbprintOf), last, thumbprintOf);
    }
  }

  /** No ephemeral key survives a handling of expirations in any run, whatever its removal date. */
  lemma {:induction false} EphemeralKeysGoNext(m: Manager, ops: seq<Operation>, now: int, thumbprintOf: Thumbprinter)
    requires AllKeepOptions(m, ops) && now >= 999
    ensures Ephemeral(m, ops + [HandleExpirations(now, false)], thumbprintOf) == {}
  {
    EphemeralKeysExpire(m, ops, thumbprintOf);
    var all := ops + [HandleExpirations(now, false)];
    assert all[..|all| - 1] == ops;
    var before := Run(m, ops, thumbprintOf);
    forall kid | kid in Ephemeral(m, ops, thumbprintOf) ensures kid !in Remaining(before.store, now) {
      EveryExpirationCounts(before.store[kid], now);
    }
  }
}
