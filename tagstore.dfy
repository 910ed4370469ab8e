/** The tag store of `database.tag`, as transitions of the state it reads
    and writes: the two comment slots of every address, the two reference
    indexes, and the per-address attributes behind the implicit tags.
    An address inside a function keeps its tags in the non-repeatable slot
    and counts them in the `contents` index; any other address uses the
    repeatable slot and the `globals` index. `body` is the set of addresses
    that lie inside some function. */
module TagStore {
  import opened Common
  import opened Codec
  import RefIndex
  import Colors

  const NameKey: string := "__name__"
  const PrefixKey: string := "__extra_prefix__"
  const SuffixKey: string := "__extra_suffix__"
  const ColorKey: string := "__color__"

  /** Keys whose write goes to an attribute setter instead of a comment slot. */
  predicate SetDispatched(key: string)
  {
    key == NameKey || key == PrefixKey || key == SuffixKey || key == ColorKey
  }

  /** Keys whose removal goes to an attribute remover: the delete path has no colour branch. */
  predicate DeleteDispatched(key: string)
  {
    key == NameKey || key == PrefixKey || key == SuffixKey
  }

  /** The symbol name, the extra prefix and suffix comments, and the raw item colour. */
  datatype Attributes = Attributes(
    names: map<Addr, string>,
    prefixes: map<Addr, string>,
    suffixes: map<Addr, string>,
    colors: map<Addr, int>)

  datatype Db = Db(
    repeatable: map<Addr, Comment>,
    nonRepeatable: map<Addr, Comment>,
    globals: RefIndex.Index,
    contents: RefIndex.Index,
    attrs: Attributes)

  /** The state after a call and what the call returned or raised. */
  datatype Outcome = Outcome(db: Db, result: Result<Value>)

  function SlotAt(slots: map<Addr, Comment>, ea: Addr): Option<Comment>
  {
    if ea in slots then Some(slots[ea]) else None
  }

  /** The decoded canonical slot: non-repeatable inside a function, repeatable elsewhere. */
  function Canonical(db: Db, body: set<Addr>, ea: Addr): TagMap
  {
    Decode(SlotAt(if ea in body then db.nonRepeatable else db.repeatable, ea))
  }

  /** The slot that is not canonical for `ea`, as stored. */
  function OtherSlot(db: Db, body: set<Addr>, ea: Addr): Option<Comment>
  {
    SlotAt(if ea in body then db.repeatable else db.nonRepeatable, ea)
  }

  /** The decoded slot that is not canonical for `ea`. */
  function NonCanonical(db: Db, body: set<Addr>, ea: Addr): TagMap
  {
    Decode(SlotAt(if ea in body then db.repeatable else db.nonRepeatable, ea))
  }

  /** Both slots merged so that the canonical slot wins on a shared key. */
  function Stored(db: Db, body: set<Addr>, ea: Addr): (m: TagMap)
    ensures m.Keys == Canonical(db, body, ea).Keys + NonCanonical(db, body, ea).Keys
    ensures forall k :: k in Canonical(db, body, ea) ==> m[k] == Canonical(db, body, ea)[k]
    ensures forall k :: k in NonCanonical(db, body, ea) && k !in Canonical(db, body, ea) ==> m[k] == NonCanonical(db, body, ea)[k]
  {
    NonCanonical(db, body, ea) + Canonical(db, body, ea)
  }

  /** The index the address counts its tags in. */
  function ScopeIndex(db: Db, body: set<Addr>, ea: Addr): RefIndex.Index
  {
    if ea in body then db.contents else db.globals
  }

  /** The index the address does not use. */
  function OtherIndex(db: Db, body: set<Addr>, ea: Addr): RefIndex.Index
  {
    if ea in body then db.globals else db.contents
  }

  function WithScopeIndex(db: Db, body: set<Addr>, ea: Addr, idx: RefIndex.Index): Db
  {
    if ea in body then db.(contents := idx) else db.(globals := idx)
  }

  /** `comment(ea, '', repeatable=not repeatable)`. */
  function ClearOther(db: Db, body: set<Addr>, ea: Addr): Db
  {
    if ea in body then db.(repeatable := db.repeatable[ea := Plain("")])
    else db.(nonRepeatable := db.nonRepeatable[ea := Plain("")])
  }

  /** `comment(ea, encode(state), repeatable=repeatable)`. */
  function WriteCanonical(db: Db, body: set<Addr>, ea: Addr, c: Comment): Db
  {
    if ea in body then db.(nonRepeatable := db.nonRepeatable[ea := c])
    else db.(repeatable := db.repeatable[ea := c])
  }

  /** The slots of every other address are untouched. */
  ghost predicate SlotsAgreeElsewhere(db: Db, db': Db, ea: Addr)
  {
    forall a :: a != ea ==>
      SlotAt(db'.repeatable, a) == SlotAt(db.repeatable, a) &&
      SlotAt(db'.nonRepeatable, a) == SlotAt(db.nonRepeatable, a)
  }

  // ---------------------------------------------------------------- implicit tags

  function RawColor(attrs: Attributes, ea: Addr): int
  {
    if ea in attrs.colors then attrs.colors[ea] else Colors.DefColor
  }

  /** The value an implicit tag has at `ea`, when it is present. */
  function ImplicitOf(attrs: Attributes, ea: Addr, key: string): Option<Value>
  {
    if key == NameKey then
      (if ea in attrs.names && attrs.names[ea] != "" then Some(Str(attrs.names[ea])) else None)
    else if key == PrefixKey then
      (if ea in attrs.prefixes then Some(Str(attrs.prefixes[ea])) else None)
    else if key == SuffixKey then
      (if ea in attrs.suffixes then Some(Str(attrs.suffixes[ea])) else None)
    else if key == ColorKey then
      (match Colors.FromRaw(RawColor(attrs, ea))
       case Some(rgb) => Some(Int(rgb))
       case None => None)
    else None
  }

  /** Python's `dict.setdefault` for a value that may be absent. */
  function SetDefault(m: TagMap, key: string, v: Option<Value>): (r: TagMap)
    ensures forall k :: k in m ==> k in r && r[k] == m[k]
    ensures forall k :: k in r && k !in m ==> k == key && v == Some(r[k])
    ensures v.Some? ==> key in r
  {
    if v.Some? && key !in m then m[key := v.value] else m
  }

  /** `tag(ea)`: the stored tags, then each implicit tag that is present and not stored. */
  function Read(db: Db, body: set<Addr>, ea: Addr): (r: TagMap)
    ensures forall k :: k in Stored(db, body, ea) ==> k in r && r[k] == Stored(db, body, ea)[k]
    ensures forall k :: k in r && k !in Stored(db, body, ea) ==> ImplicitOf(db.attrs, ea, k) == Some(r[k])
    ensures forall k :: ImplicitOf(db.attrs, ea, k).Some? ==> k in r
  {
    var a := db.attrs;
    var withName := SetDefault(Stored(db, body, ea), NameKey, ImplicitOf(a, ea, NameKey));
    var withPrefix := SetDefault(withName, PrefixKey, ImplicitOf(a, ea, PrefixKey));
    var withSuffix := SetDefault(withPrefix, SuffixKey, ImplicitOf(a, ea, SuffixKey));
    SetDefault(withSuffix, ColorKey, ImplicitOf(a, ea, ColorKey))
  }

  /** `tag(ea, key)`: a stored value, else a present implicit value, else `MissingTagError`. */
  function Get(db: Db, body: set<Addr>, ea: Addr, key: string): (r: Result<Value>)
    ensures key in Stored(db, body, ea) ==> r == Ok(Stored(db, body, ea)[key])
    ensures key !in Stored(db, body, ea) && ImplicitOf(db.attrs, ea, key).Some? ==> r == Ok(ImplicitOf(db.attrs, ea, key).value)
    ensures key !in Stored(db, body, ea) && ImplicitOf(db.attrs, ea, key).None? ==> r == Err(MissingTag)
  {
    var res := Read(db, body, ea);
    if key in res then Ok(res[key]) else Err(MissingTag)
  }

  /** What the getter of an implicit key returned before a change: its value, or
      `None` when there was none (an empty name reads as none, as `name(ea)` does). */
  function Previous(attrs: Attributes, ea: Addr, key: string): Value
  {
    match ImplicitOf(attrs, ea, key)
    case Some(v) => v
    case None => Null
  }

  /** The integer a value stands for where Python accepts an integer: a
      `bool` is an `int`, so `True` is 1 and `False` is 0. */
  function AsInt(v: Value): (r: Option<int>)
    ensures v.Int? ==> r == Some(v.i)
    ensures v.Bool? ==> r == Some(if v.b then 1 else 0)
    ensures !v.Int? && !v.Bool? ==> r.None?
  {
    match v
    case Int(i) => Some(i)
    case Bool(b) => Some(if b then 1 else 0)
    case _ => None
  }

  /** The attribute setters `name(ea, s, listed=True)`, `extra.__set_prefix__`,
      `extra.__set_suffix__` and `color(ea, rgb)`. A value of a type no overload
      accepts is refused. The setters return the previous name or comment; the
      colour setter returns what the host's `set_item_color` reports, which is
      not modelled and is `None` here. */
  function SetAttribute(db: Db, ea: Addr, key: string, value: Value): (o: Outcome)
    requires SetDispatched(key)
    ensures o.db.repeatable == db.repeatable && o.db.nonRepeatable == db.nonRepeatable
    ensures o.db.globals == db.globals && o.db.contents == db.contents
    ensures o.result.Err? ==> o.result.error == NoMatchingOverload && o.db == db
    ensures key != ColorKey ==> (o.result.Ok? <==> value.Str?)
    ensures o.result.Ok? && key != ColorKey && ImplicitOf(db.attrs, ea, key).Some? ==> o.result.value == ImplicitOf(db.attrs, ea, key).value
    ensures o.result.Ok? && key != ColorKey && ImplicitOf(db.attrs, ea, key).None? ==> o.result.value == Null
    ensures o.result.Ok? && key == ColorKey ==> o.result.value == Null
    ensures key == ColorKey ==> (o.result.Ok? <==> AsInt(value).Some?)
    ensures o.result.Ok? && key != ColorKey ==> ImplicitOf(o.db.attrs, ea, key) == (if value == Str("") && key == NameKey then None else Some(value))
    ensures o.result.Ok? && key == ColorKey ==> Colors.FromRaw(RawColor(o.db.attrs, ea)).Some?
    ensures o.result.Ok? && key == ColorKey && 0 <= AsInt(value).value < 0x100_0000 ==>
              ImplicitOf(o.db.attrs, ea, key) == Some(Int(AsInt(value).value))
    ensures forall k :: k != key ==> ImplicitOf(o.db.attrs, ea, k) == ImplicitOf(db.attrs, ea, k)
    ensures forall a, k :: a != ea ==> ImplicitOf(o.db.attrs, a, k) == ImplicitOf(db.attrs, a, k)
  {
    var a := db.attrs;
    if key == ColorKey then
      if AsInt(value).Some? then Outcome(SetColor(db, ea, AsInt(value).value), Ok(Null))
      else Outcome(db, Err(NoMatchingOverload))
    else if !value.Str? then Outcome(db, Err(NoMatchingOverload))
    else if key == NameKey then
      var names := if value.s == "" then a.names - {ea} else a.names[ea := value.s];
      Outcome(db.(attrs := a.(names := names)), Ok(Previous(a, ea, key)))
    else if key == PrefixKey then
      Outcome(db.(attrs := a.(prefixes := a.prefixes[ea := value.s])), Ok(Previous(a, ea, key)))
    else
      Outcome(db.(attrs := a.(suffixes := a.suffixes[ea := value.s])), Ok(Previous(a, ea, key)))
  }

  /** The attribute removers `name(ea, None, listed=True)`, `extra.__del_prefix__`
      and `extra.__del_suffix__`; each returns what was there. */
  function RemoveAttribute(db: Db, ea: Addr, key: string): (o: Outcome)
    requires DeleteDispatched(key)
    ensures o.db.repeatable == db.repeatable && o.db.nonRepeatable == db.nonRepeatable
    ensures o.db.globals == db.globals && o.db.contents == db.contents
    ensures o.result.Ok?
    ensures ImplicitOf(db.attrs, ea, key).Some? ==> o.result.value == ImplicitOf(db.attrs, ea, key).value
    ensures ImplicitOf(db.attrs, ea, key).None? ==> o.result.value == Null
    ensures ImplicitOf(o.db.attrs, ea, key).None?
    ensures forall k :: k != key ==> ImplicitOf(o.db.attrs, ea, k) == ImplicitOf(db.attrs, ea, k)
    ensures forall a, k :: a != ea ==> ImplicitOf(o.db.attrs, a, k) == ImplicitOf(db.attrs, a, k)
  {
    var a := db.attrs;
    if key == NameKey then Outcome(db.(attrs := a.(names := a.names - {ea})), Ok(Previous(a, ea, key)))
    else if key == PrefixKey then Outcome(db.(attrs := a.(prefixes := a.prefixes - {ea})), Ok(Previous(a, ea, key)))
    else Outcome(db.(attrs := a.(suffixes := a.suffixes - {ea})), Ok(Previous(a, ea, key)))
  }

  // ---------------------------------------------------------------- writes

  /** `tag(ea, key, value)`. */
  function Set(db: Db, body: set<Addr>, ea: Addr, key: string, value: Value): (o: Outcome)
    ensures value == Null ==> o == Outcome(db, Err(InvalidParameter))
    ensures value != Null && SetDispatched(key) ==> o == SetAttribute(db, ea, key, value)
    ensures value != Null && SetDispatched(key) ==>
      o.db.repeatable == db.repeatable && o.db.nonRepeatable == db.nonRepeatable &&
      o.db.globals == db.globals && o.db.contents == db.contents
    ensures value != Null && !SetDispatched(key) ==>
      && o.result == Ok(if key in Stored(db, body, ea) then Stored(db, body, ea)[key] else Null)
      && Stored(o.db, body, ea) == Stored(db, body, ea)[key := value]
      && NonCanonical(o.db, body, ea) == map[]
      && OtherSlot(o.db, body, ea) == (if NonCanonical(db, body, ea) == map[] then OtherSlot(db, body, ea) else Some(Plain("")))
      && ScopeIndex(o.db, body, ea) ==
           (if key in Stored(db, body, ea) then ScopeIndex(db, body, ea)
            else RefIndex.Inc(ScopeIndex(db, body, ea), ea, key))
      && OtherIndex(o.db, body, ea) == OtherIndex(db, body, ea)
      && o.db.attrs == db.attrs
      && SlotsAgreeElsewhere(db, o.db, ea)
  {
    if value == Null then Outcome(db, Err(InvalidParameter))
    else if SetDispatched(key) then SetAttribute(db, ea, key, value)
    else Store(db, body, ea, key, value)
  }

  /** The comment path of `tag(ea, key, value)`: the non-canonical slot is
      folded into the canonical one and, when it held tags, cleared; a new key
      is counted in the index of its scope, and the canonical slot is written.
      A plain comment in the other slot is left as it is. */
  function Store(db: Db, body: set<Addr>, ea: Addr, key: string, value: Value): (o: Outcome)
    requires value != Null && !SetDispatched(key)
    ensures o.result == Ok(if key in Stored(db, body, ea) then Stored(db, body, ea)[key] else Null)
    ensures Stored(o.db, body, ea) == Stored(db, body, ea)[key := value]
    ensures NonCanonical(o.db, body, ea) == map[]
    ensures OtherSlot(o.db, body, ea) == (if NonCanonical(db, body, ea) == map[] then OtherSlot(db, body, ea) else Some(Plain("")))
    ensures ScopeIndex(o.db, body, ea) ==
      (if key in Stored(db, body, ea) then ScopeIndex(db, body, ea)
       else RefIndex.Inc(ScopeIndex(db, body, ea), ea, key))
    ensures OtherIndex(o.db, body, ea) == OtherIndex(db, body, ea)
    ensures o.db.attrs == db.attrs
    ensures SlotsAgreeElsewhere(db, o.db, ea)
  {
    var other := NonCanonical(db, body, ea);
    var state := other + Canonical(db, body, ea);
    var cleared := if other != map[] then ClearOther(db, body, ea) else db;
    var idx := ScopeIndex(db, body, ea);
    var counted := WithScopeIndex(cleared, body, ea, if key in state then idx else RefIndex.Inc(idx, ea, key));
    var written := WriteCanonical(counted, body, ea, Encode(state[key := value]));
    assert Canonical(written, body, ea) == state[key := value];
    assert NonCanonical(written, body, ea) == map[];
    Outcome(written, Ok(if key in state then state[key] else Null))
  }

  /** `tag(ea, key, None)` as written: the non-canonical slot is cleared,
      when it held tags, before the key is looked up, so a delete that raises
      `MissingTagError` has still cleared it. A plain comment there is left. */
  function Delete(db: Db, body: set<Addr>, ea: Addr, key: string): (o: Outcome)
    ensures DeleteDispatched(key) ==> o == RemoveAttribute(db, ea, key)
    ensures DeleteDispatched(key) ==>
      o.db.repeatable == db.repeatable && o.db.nonRepeatable == db.nonRepeatable &&
      o.db.globals == db.globals && o.db.contents == db.contents
    ensures !DeleteDispatched(key) ==>
      && o.db.attrs == db.attrs
      && NonCanonical(o.db, body, ea) == map[]
      && OtherSlot(o.db, body, ea) == (if NonCanonical(db, body, ea) == map[] then OtherSlot(db, body, ea) else Some(Plain("")))
      && Canonical(o.db, body, ea) == (if key in Stored(db, body, ea) then Stored(db, body, ea) - {key} else Canonical(db, body, ea))
      && o.result == (if key in Stored(db, body, ea) then Ok(Stored(db, body, ea)[key]) else Err(MissingTag))
      && ScopeIndex(o.db, body, ea) ==
           (if key in Stored(db, body, ea) then RefIndex.Dec(ScopeIndex(db, body, ea), ea, key)
            else ScopeIndex(db, body, ea))
      && OtherIndex(o.db, body, ea) == OtherIndex(db, body, ea)
      && SlotsAgreeElsewhere(db, o.db, ea)
  {
    if DeleteDispatched(key) then RemoveAttribute(db, ea, key)
    else
      var other := NonCanonical(db, body, ea);
      var state := other + Canonical(db, body, ea);
      var cleared := if other != map[] then ClearOther(db, body, ea) else db;
      if key !in state then Outcome(cleared, Err(MissingTag))
      else
        var written := WriteCanonical(cleared, body, ea, Encode(state - {key}));
        Outcome(WithScopeIndex(written, body, ea, RefIndex.Dec(ScopeIndex(db, body, ea), ea, key)), Ok(state[key]))
  }

  // ---------------------------------------------------------------- the index invariant

  /** Each index is well formed, and the names it records at an address are
      exactly the keys stored there, for the addresses of its scope, and none
      for the others. */
  ghost predicate Consistent(db: Db, body: set<Addr>)
  {
    && RefIndex.Valid(db.globals)
    && RefIndex.Valid(db.contents)
    && forall ea :: IndexedAt(db, body, ea)
  }

  /** The index of the address's scope records exactly its stored keys; the other records none. */
  ghost predicate IndexedAt(db: Db, body: set<Addr>, ea: Addr)
  {
    && RefIndex.NamesAt(ScopeIndex(db, body, ea), ea) == Stored(db, body, ea).Keys
    && RefIndex.NamesAt(OtherIndex(db, body, ea), ea) == {}
  }

  /** A change confined to `ea` that keeps the indexes valid and matches
      the index at `ea` to the stored keys keeps the store consistent. */
  lemma ConsistentAfterLocalChange(db: Db, db': Db, body: set<Addr>, ea: Addr)
    requires Consistent(db, body)
    requires RefIndex.Valid(ScopeIndex(db', body, ea))
    requires OtherIndex(db', body, ea) == OtherIndex(db, body, ea)
    requires SlotsAgreeElsewhere(db, db', ea)
    requires forall a :: a != ea ==> RefIndex.NamesAt(ScopeIndex(db', body, ea), a) == RefIndex.NamesAt(ScopeIndex(db, body, ea), a)
    requires RefIndex.NamesAt(ScopeIndex(db', body, ea), ea) == Stored(db', body, ea).Keys
    ensures Consistent(db', body)
  {
    assert IndexedAt(db, body, ea);
    forall a ensures IndexedAt(db', body, a) {
      if a != ea {
        assert IndexedAt(db, body, a);
        assert Canonical(db', body, a) == Canonical(db, body, a);
        assert NonCanonical(db', body, a) == NonCanonical(db, body, a);
      }
    }
  }

  /** A change that leaves every slot and both indexes alone keeps the store consistent. */
  lemma ConsistentWhenSlotsUntouched(db: Db, db': Db, body: set<Addr>)
    requires Consistent(db, body)
    requires db'.repeatable == db.repeatable && db'.nonRepeatable == db.nonRepeatable
    requires db'.globals == db.globals && db'.contents == db.contents
    ensures Consistent(db', body)
  {
    forall a ensures IndexedAt(db', body, a) {
      assert IndexedAt(db, body, a);
      assert Canonical(db', body, a) == Canonical(db, body, a);
      assert NonCanonical(db', body, a) == NonCanonical(db, body, a);
    }
  }

  lemma {:induction false} SetKeepsConsistent(db: Db, body: set<Addr>, ea: Addr, key: string, value: Value)
    requires Consistent(db, body)
    ensures Consistent(Set(db, body, ea, key, value).db, body)
  {
    if value != Null && !SetDispatched(key) {
      StoredSetKeepsConsistent(db, body, ea, key, value);
    } else {
      ConsistentWhenSlotsUntouched(db, Set(db, body, ea, key, value).db, body);
    }
  }

  /** The case of `SetKeepsConsistent` where the key is stored in a comment slot. */
  lemma {:induction false} StoredSetKeepsConsistent(db: Db, body: set<Addr>, ea: Addr, key: string, value: Value)
    requires Consistent(db, body)
    requires value != Null && !SetDispatched(key)
    ensures Consistent(Set(db, body, ea, key, value).db, body)
  {
    var o := Set(db, body, ea, key, value);
    assert IndexedAt(db, body, ea);
    var idx := ScopeIndex(db, body, ea);
    assert Stored(o.db, body, ea).Keys == Stored(db, body, ea).Keys + {key};
    if key in Stored(db, body, ea) {
      assert ScopeIndex(o.db, body, ea) == idx;
    } else {
      RefIndex.IncKeepsValid(idx, ea, key);
      assert ScopeIndex(o.db, body, ea) == RefIndex.Inc(idx, ea, key);
    }
    ConsistentAfterLocalChange(db, o.db, body, ea);
  }

  /** A delete that succeeds keeps the store consistent, and so does a
      failed one whose non-canonical slot held no key missing from the
      canonical one. */
  lemma {:induction false} DeleteKeepsConsistent(db: Db, body: set<Addr>, ea: Addr, key: string)
    requires Consistent(db, body)
    requires Delete(db, body, ea, key).result.Ok? || NonCanonical(db, body, ea).Keys <= Canonical(db, body, ea).Keys
    ensures Consistent(Delete(db, body, ea, key).db, body)
  {
    var o := Delete(db, body, ea, key);
    if !DeleteDispatched(key) {
      assert IndexedAt(db, body, ea);
      RefIndex.DecKeepsValid(ScopeIndex(db, body, ea), ea, key);
      if key in Stored(db, body, ea) {
        assert Stored(o.db, body, ea).Keys == Stored(db, body, ea).Keys - {key};
      } else {
        assert Stored(o.db, body, ea).Keys == Canonical(db, body, ea).Keys == Stored(db, body, ea).Keys;
      }
      ConsistentAfterLocalChange(db, o.db, body, ea);
    } else {
      ConsistentWhenSlotsUntouched(db, o.db, body);
    }
  }

  /** Slots, implicit tags and index entries of every address other than `ea` agree. */
  ghost predicate SameElsewhere(db: Db, db': Db, ea: Addr)
  {
    && SlotsAgreeElsewhere(db, db', ea)
    && (forall a, k :: a != ea ==> ImplicitOf(db'.attrs, a, k) == ImplicitOf(db.attrs, a, k))
    && (forall a :: a != ea ==> RefIndex.NamesAt(db'.globals, a) == RefIndex.NamesAt(db.globals, a))
    && (forall a :: a != ea ==> RefIndex.NamesAt(db'.contents, a) == RefIndex.NamesAt(db.contents, a))
  }

  /** What one delete of `key` at `ea` does, from `db` to `db'` with `result`:
      it fails only on a key that is neither dispatched nor stored; it removes
      the key from the stored tags, or its implicit attribute, and leaves every
      other key, the colour and every other address alone. */
  ghost predicate DeleteStep(db: Db, db': Db, body: set<Addr>, ea: Addr, key: string, result: Result<Value>)
  {
    && (result.Err? <==> !DeleteDispatched(key) && key !in Stored(db, body, ea))
    && (result.Err? ==> result.error == MissingTag)
    && Stored(db', body, ea).Keys <= Stored(db, body, ea).Keys
    && (result.Ok? && !DeleteDispatched(key) ==> key !in Stored(db', body, ea))
    && (result.Ok? ==> forall k :: k != key && k in Stored(db, body, ea) ==> k in Stored(db', body, ea))
    && (DeleteDispatched(key) ==> ImplicitOf(db'.attrs, ea, key).None?)
    && (forall k :: k != key ==> ImplicitOf(db'.attrs, ea, k) == ImplicitOf(db.attrs, ea, k))
    && RawColor(db'.attrs, ea) == RawColor(db.attrs, ea)
    && SameElsewhere(db, db', ea)
  }

  lemma {:induction false} DeleteEffect(db: Db, body: set<Addr>, ea: Addr, key: string)
    ensures DeleteStep(db, Delete(db, body, ea, key).db, body, ea, key, Delete(db, body, ea, key).result)
  {
    var o := Delete(db, body, ea, key);
    if !DeleteDispatched(key) {
      if key in Stored(db, body, ea) {
        assert Stored(o.db, body, ea) == Stored(db, body, ea) - {key};
      } else {
        assert Stored(o.db, body, ea) == Canonical(db, body, ea);
      }
      if ea in body {
        assert o.db.globals == db.globals;
      } else {
        assert o.db.contents == db.contents;
      }
    }
  }

  /** Erasing `ea` fails exactly when a colour is listed but not stored. */
  predicate EraseFails(db: Db, body: set<Addr>, ea: Addr)
  {
    ColorKey in Read(db, body, ea) && ColorKey !in Stored(db, body, ea)
  }

  /** Erasing fails exactly at an address that has a colour and no `__color__` key stored. */
  lemma EraseFailsOnColour(db: Db, body: set<Addr>, ea: Addr)
    ensures EraseFails(db, body, ea) <==> ColorKey !in Stored(db, body, ea) && Colors.FromRaw(RawColor(db.attrs, ea)).Some?
  {
    if ColorKey !in Stored(db, body, ea) && Colors.FromRaw(RawColor(db.attrs, ea)).Some? {
      assert ImplicitOf(db.attrs, ea, ColorKey).Some?;
    }
  }

  /** An untagged address coloured 0x0000ff: `tag(ea)` lists `__color__`, so
      `erase(ea)` deletes it as a tag and raises `MissingTagError`. */
  lemma ColouredAddressFailsErase()
    ensures var db := Db(map[], map[], RefIndex.Empty, RefIndex.Empty, Attributes(map[], map[], map[], map[0 := 0xff_0000]));
            Read(db, {}, 0) == map[ColorKey := Int(0xff)] && EraseFails(db, {}, 0)
  {
    var db := Db(map[], map[], RefIndex.Empty, RefIndex.Empty, Attributes(map[], map[], map[], map[0 := 0xff_0000]));
    assert Stored(db, {}, 0) == map[];
    assert Colors.FromRaw(0xff_0000) == Some(0xff);
    assert ImplicitOf(db.attrs, 0, ColorKey) == Some(Int(0xff));
  }

  /** What holds between the state `s0` before `erase(ea)` and the state
      `db` once every listed key outside `keys` has been deleted. */
  ghost predicate ErasedExcept(s0: Db, db: Db, body: set<Addr>, ea: Addr, keys: set<string>)
  {
    && ErasedCore(s0, db, body, ea, keys)
    && (EraseFails(s0, body, ea) ==> ColorKey in keys)
  }

  /** The part of `ErasedExcept` that does not depend on which keys the loop visits. */
  ghost predicate ErasedCore(s0: Db, db: Db, body: set<Addr>, ea: Addr, keys: set<string>)
  {
    && keys <= Read(s0, body, ea).Keys
    && StoredWithin(Stored(s0, body, ea), Stored(db, body, ea), keys)
    && StillStored(Stored(s0, body, ea), Stored(db, body, ea), keys)
    && ImplicitCleared(db.attrs, ea, keys)
    && RawColor(db.attrs, ea) == RawColor(s0.attrs, ea)
    && SameElsewhere(s0, db, ea)
  }

  /** Every key still stored was stored at the start, and is still to be
      deleted or names an implicit tag. */
  ghost predicate StoredWithin(start: TagMap, now: TagMap, keys: set<string>)
  {
    forall k :: k in now ==> k in start && (k in keys || DeleteDispatched(k))
  }

  /** Every generic key still to be deleted is still stored, the colour
      only when it was stored at the start. */
  ghost predicate StillStored(start: TagMap, now: TagMap, keys: set<string>)
  {
    forall k :: k in keys && !DeleteDispatched(k) && (k != ColorKey || ColorKey in start) ==> k in now
  }

  /** Every implicit tag already deleted is absent. */
  ghost predicate ImplicitCleared(attrs: Attributes, ea: Addr, keys: set<string>)
  {
    forall k :: DeleteDispatched(k) && k !in keys ==> ImplicitOf(attrs, ea, k).None?
  }

  lemma EraseStart(db: Db, body: set<Addr>, ea: Addr)
    ensures ErasedExcept(db, db, body, ea, Read(db, body, ea).Keys)
    ensures ColorKey !in Stored(db, body, ea) ==> ErasedCore(db, db, body, ea, Read(db, body, ea).Keys - {ColorKey})
  {
  }

  /** Deleting one more listed key either fails on an unstored colour, or makes progress. */
  lemma {:induction false} EraseStep(s0: Db, db: Db, db': Db, body: set<Addr>, ea: Addr, keys: set<string>, k: string, result: Result<Value>)
    requires ErasedExcept(s0, db, body, ea, keys)
    requires k in keys
    requires DeleteStep(db, db', body, ea, k, result)
    ensures result.Err? ==>
      result.error == MissingTag && EraseFails(s0, body, ea) &&
      RawColor(db'.attrs, ea) == RawColor(s0.attrs, ea) && SameElsewhere(s0, db', ea)
    ensures result.Ok? ==> ErasedExcept(s0, db', body, ea, keys - {k})
  {
    if result.Err? {
      assert k in Read(s0, body, ea);
    } else {
      EraseProgress(s0, db, db', body, ea, keys, k, result);
      if k == ColorKey {
        assert ColorKey in Stored(db, body, ea);
      }
    }
  }

  /** Erasing without the implicit colour: every delete succeeds. */
  lemma {:induction false} EraseStepSkippingColor(s0: Db, db: Db, db': Db, body: set<Addr>, ea: Addr, keys: set<string>, k: string, result: Result<Value>)
    requires ErasedCore(s0, db, body, ea, keys)
    requires k in keys
    requires k == ColorKey ==> ColorKey in Stored(s0, body, ea)
    requires DeleteStep(db, db', body, ea, k, result)
    ensures result.Ok?
    ensures ErasedCore(s0, db', body, ea, keys - {k})
  {
    assert result.Ok? by {
      if !DeleteDispatched(k) {
        assert k in Stored(db, body, ea);
      }
    }
    EraseProgress(s0, db, db', body, ea, keys, k, result);
  }

  lemma {:induction false} EraseProgress(s0: Db, db: Db, db': Db, body: set<Addr>, ea: Addr, keys: set<string>, k: string, result: Result<Value>)
    requires ErasedCore(s0, db, body, ea, keys)
    requires k in keys
    requires DeleteStep(db, db', body, ea, k, result)
    requires result.Ok?
    ensures ErasedCore(s0, db', body, ea, keys - {k})
  {
    var start, now, next := Stored(s0, body, ea), Stored(db, body, ea), Stored(db', body, ea);
    StoredWithinStep(start, now, next, keys, k);
    StillStoredStep(start, now, next, keys, k);
    ImplicitClearedStep(db.attrs, db'.attrs, ea, keys, k);
    SameElsewhereTrans(s0, db, db', ea);
  }

  lemma StoredWithinStep(start: TagMap, now: TagMap, next: TagMap, keys: set<string>, k: string)
    requires StoredWithin(start, now, keys)
    requires next.Keys <= now.Keys
    requires !DeleteDispatched(k) ==> k !in next
    ensures StoredWithin(start, next, keys - {k})
  {
  }

  lemma StillStoredStep(start: TagMap, now: TagMap, next: TagMap, keys: set<string>, k: string)
    requires StillStored(start, now, keys)
    requires forall k' :: k' != k && k' in now ==> k' in next
    ensures StillStored(start, next, keys - {k})
  {
  }

  lemma ImplicitClearedStep(attrs: Attributes, attrs': Attributes, ea: Addr, keys: set<string>, k: string)
    requires ImplicitCleared(attrs, ea, keys)
    requires DeleteDispatched(k) ==> ImplicitOf(attrs', ea, k).None?
    requires forall k' :: k' != k ==> ImplicitOf(attrs', ea, k') == ImplicitOf(attrs, ea, k')
    ensures ImplicitCleared(attrs', ea, keys - {k})
  {
  }

  /** `color(ea, rgb)`: only the colour of `ea` changes, and a 24-bit colour reads back. */
  function SetColor(db: Db, ea: Addr, rgb: int): (db': Db)
    ensures db'.repeatable == db.repeatable && db'.nonRepeatable == db.nonRepeatable
    ensures db'.globals == db.globals && db'.contents == db.contents
    ensures Colors.FromRaw(RawColor(db'.attrs, ea)).Some?
    ensures 0 <= rgb < 0x100_0000 ==> Colors.FromRaw(RawColor(db'.attrs, ea)) == Some(rgb)
    ensures 0 <= rgb < 0x100_0000 ==> ImplicitOf(db'.attrs, ea, ColorKey) == Some(Int(rgb))
    ensures forall k :: k != ColorKey ==> ImplicitOf(db'.attrs, ea, k) == ImplicitOf(db.attrs, ea, k)
    ensures forall a, k :: a != ea ==> ImplicitOf(db'.attrs, a, k) == ImplicitOf(db.attrs, a, k)
  {
    assert 0 <= rgb < 0x100_0000 ==> Colors.FromRaw(Colors.ToRaw(rgb)) == Some(rgb) by {
      if 0 <= rgb < 0x100_0000 {
        Colors.ColorRoundTrip(rgb);
      }
    }
    db.(attrs := db.attrs.(colors := db.attrs.colors[ea := Colors.ToRaw(rgb)]))
  }

  /** `color(ea, None)`. */
  function ClearColor(db: Db, ea: Addr): (db': Db)
    ensures Colors.FromRaw(RawColor(db'.attrs, ea)).None?
  {
    db.(attrs := db.attrs.(colors := db.attrs.colors[ea := Colors.DefColor]))
  }

  /** Once every listed key is deleted and the colour cleared, `tag(ea)`
      lists only keys stored by hand under an implicit name, and nothing at
      any other address has changed. */
  lemma {:induction false} EraseFinish(s0: Db, db: Db, body: set<Addr>, ea: Addr)
    requires ErasedCore(s0, db, body, ea, {})
    ensures forall k :: DeleteDispatched(k) ==> ImplicitOf(ClearColor(db, ea).attrs, ea, k).None?
    ensures forall k :: k in Read(ClearColor(db, ea), body, ea) ==> DeleteDispatched(k) && k in Stored(s0, body, ea)
    ensures SameElsewhere(s0, ClearColor(db, ea), ea)
  {
    var db' := ClearColor(db, ea);
    ClearColorKeepsStored(db, body, ea);
    ClearColorKeepsCleared(db.attrs, ea);
    ReadOnlyStored(db', body, ea);
    ClearColorElsewhere(s0, db, ea);
  }

  lemma {:induction false} ClearColorKeepsStored(db: Db, body: set<Addr>, ea: Addr)
    ensures Stored(ClearColor(db, ea), body, ea) == Stored(db, body, ea)
  {
    var db' := ClearColor(db, ea);
    assert db'.repeatable == db.repeatable && db'.nonRepeatable == db.nonRepeatable;
  }

  lemma ClearColorKeepsCleared(attrs: Attributes, ea: Addr)
    requires ImplicitCleared(attrs, ea, {})
    ensures ImplicitCleared(attrs.(colors := attrs.colors[ea := Colors.DefColor]), ea, {})
  {
    var attrs' := attrs.(colors := attrs.colors[ea := Colors.DefColor]);
    forall k | DeleteDispatched(k) ensures ImplicitOf(attrs', ea, k).None? {
      assert ImplicitOf(attrs, ea, k).None?;
    }
  }

  /** With no implicit tag present, `tag(ea)` lists the stored keys only. */
  lemma ReadOnlyStored(db: Db, body: set<Addr>, ea: Addr)
    requires ImplicitCleared(db.attrs, ea, {})
    requires Colors.FromRaw(RawColor(db.attrs, ea)).None?
    ensures Read(db, body, ea).Keys == Stored(db, body, ea).Keys
  {
  }

  lemma SameElsewhereTrans(db: Db, db': Db, db'': Db, ea: Addr)
    requires SameElsewhere(db, db', ea) && SameElsewhere(db', db'', ea)
    ensures SameElsewhere(db, db'', ea)
  {
  }

  lemma ClearColorElsewhere(s0: Db, db: Db, ea: Addr)
    requires SameElsewhere(s0, db, ea)
    ensures SameElsewhere(s0, ClearColor(db, ea), ea)
  {
    var db' := ClearColor(db, ea);
    forall a, k | a != ea
      ensures ImplicitOf(db'.attrs, a, k) == ImplicitOf(s0.attrs, a, k)
    {
      assert RawColor(db'.attrs, a) == RawColor(db.attrs, a);
      assert ImplicitOf(db'.attrs, a, k) == ImplicitOf(db.attrs, a, k);
    }
  }

  /** The failed delete of a missing key drops every tag that only the
      non-canonical slot held, while the index still records it. */
  lemma {:induction false} FailedDeleteDropsOtherSlot(db: Db, body: set<Addr>, ea: Addr, key: string, lost: string)
    requires Consistent(db, body)
    requires !DeleteDispatched(key) && key !in Stored(db, body, ea)
    requires lost in NonCanonical(db, body, ea) && lost !in Canonical(db, body, ea)
    ensures Delete(db, body, ea, key).result == Err(MissingTag)
    ensures lost !in Stored(Delete(db, body, ea, key).db, body, ea)
    ensures lost in RefIndex.NamesAt(ScopeIndex(Delete(db, body, ea, key).db, body, ea), ea)
    ensures !Consistent(Delete(db, body, ea, key).db, body)
  {
    var o := Delete(db, body, ea, key);
    assert IndexedAt(db, body, ea);
    assert lost in Stored(db, body, ea);
    assert Stored(o.db, body, ea).Keys == Canonical(db, body, ea).Keys;
    assert !IndexedAt(o.db, body, ea);
  }

  /** Setting a new key and deleting it again returns the value set and
      leaves the stored tags as they were. */
  lemma {:induction false} SetThenDelete(db: Db, body: set<Addr>, ea: Addr, key: string, value: Value)
    requires value != Null && !SetDispatched(key) && key !in Stored(db, body, ea)
    ensures Delete(Set(db, body, ea, key, value).db, body, ea, key).result == Ok(value)
    ensures Stored(Delete(Set(db, body, ea, key, value).db, body, ea, key).db, body, ea) == Stored(db, body, ea)
  {
    var before := Stored(db, body, ea);
    var s := Set(db, body, ea, key, value).db;
    assert Stored(s, body, ea) == before[key := value];
    var o := Delete(s, body, ea, key);
    assert key in Stored(s, body, ea);
    assert Canonical(o.db, body, ea) == before[key := value] - {key};
    assert NonCanonical(o.db, body, ea) == map[];
    RemoveAdded(before, key, value);
  }

  /** On a consistent store, setting a new key and deleting it again leaves
      every reference count of the address's index as it was. */
  lemma {:induction false} SetThenDeleteKeepsCounts(db: Db, body: set<Addr>, ea: Addr, key: string, value: Value)
    requires Consistent(db, body)
    requires value != Null && !SetDispatched(key) && key !in Stored(db, body, ea)
    ensures forall k :: RefIndex.Count(ScopeIndex(Delete(Set(db, body, ea, key, value).db, body, ea, key).db, body, ea), k)
                        == RefIndex.Count(ScopeIndex(db, body, ea), k)
  {
    var s := Set(db, body, ea, key, value).db;
    var idx := ScopeIndex(db, body, ea);
    assert IndexedAt(db, body, ea);
    assert ScopeIndex(s, body, ea) == RefIndex.Inc(idx, ea, key);
    assert key in Stored(s, body, ea);
    RefIndex.IncThenDec(idx, ea, key);
  }

  /** Tags at an address inside a function are never counted in the global index. */
  lemma GlobalIndexOutsideFunctions(db: Db, body: set<Addr>, ea: Addr)
    requires Consistent(db, body)
    requires ea in body
    ensures ea !in db.globals.names
  {
    assert IndexedAt(db, body, ea);
    assert RefIndex.NamesAt(db.globals, ea) == {};
  }

  /** The global count of a name is the number of addresses outside
      functions that store it. */
  lemma {:induction false} GlobalCountIsStoredCount(db: Db, body: set<Addr>, k: string)
    requires Consistent(db, body)
    ensures RefIndex.Count(db.globals, k) ==
            |set ea | ea in db.repeatable.Keys + db.nonRepeatable.Keys && ea !in body && k in Stored(db, body, ea)|
  {
    var stored := set ea | ea in db.repeatable.Keys + db.nonRepeatable.Keys && ea !in body && k in Stored(db, body, ea);
    forall ea ensures ea in RefIndex.Holders(db.globals, k) <==> ea in stored {
      assert IndexedAt(db, body, ea);
      assert ea in RefIndex.Holders(db.globals, k) <==> k in RefIndex.NamesAt(db.globals, ea);
      if k in Stored(db, body, ea) {
        assert ea in db.repeatable || ea in db.nonRepeatable;
      }
    }
    assert RefIndex.Holders(db.globals, k) == stored;
  }

  /** `tags()`: the names of the global index. */
  function Tags(db: Db): set<string>
  {
    RefIndex.Names(db.globals)
  }

  /** `tags()` lists exactly the names stored at some address outside a function. */
  lemma {:induction false} TagNamesAreStoredNames(db: Db, body: set<Addr>, k: string)
    requires Consistent(db, body)
    ensures k in Tags(db) <==> exists ea :: ea !in body && k in Stored(db, body, ea)
  {
    RefIndex.NamesAreRecorded(db.globals, k);
    if exists ea :: ea !in body && k in Stored(db, body, ea) {
      var ea :| ea !in body && k in Stored(db, body, ea);
      assert IndexedAt(db, body, ea);
      assert k in RefIndex.NamesAt(db.globals, ea);
    }
    if exists a :: k in RefIndex.NamesAt(db.globals, a) {
      var a :| k in RefIndex.NamesAt(db.globals, a);
      assert IndexedAt(db, body, a);
      assert a !in body && k in Stored(db, body, a);
    }
  }
}
