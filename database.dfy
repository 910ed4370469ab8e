/** The database as mutable state: the comment slots, the two reference
    indexes and the item attributes are fields, and `tag(ea, key, value)`,
    `tag(ea, key, None)`, `erase` and the `color` setters change them step by
    step. Each step's outcome is the transition of the same name in
    `TagStore`, so everything proved there applies here. */
module Database {
  import opened Common
  import opened Codec
  import RefIndex
  import Colors
  import opened TagStore

  class Database {
    /** The addresses that lie inside some function. */
    const body: set<Addr>
    var repeatable: map<Addr, Comment>
    var nonRepeatable: map<Addr, Comment>
    var globals: RefIndex.Index
    var contents: RefIndex.Index
    var attrs: Attributes

    function State(): Db
      reads this
    {
      Db(repeatable, nonRepeatable, globals, contents, attrs)
    }

    ghost predicate Valid()
      reads this
    {
      Consistent(State(), body)
    }

    /** A database with no comments, names, extra comments or colours. */
    constructor(body: set<Addr>)
      ensures this.body == body
      ensures State() == Db(map[], map[], RefIndex.Empty, RefIndex.Empty, Attributes(map[], map[], map[], map[]))
      ensures Valid()
    {
      this.body := body;
      repeatable := map[];
      nonRepeatable := map[];
      globals := RefIndex.Empty;
      contents := RefIndex.Empty;
      attrs := Attributes(map[], map[], map[], map[]);
      new;
      RefIndex.EmptyIsValid();
      forall ea ensures IndexedAt(State(), body, ea) {
        assert Stored(State(), body, ea) == map[];
      }
    }

    /** `color(ea)`. */
    function Color(ea: Addr): Option<int>
      reads this
    {
      Colors.FromRaw(RawColor(attrs, ea))
    }

    /** `tag(ea)`. */
    function Tags(ea: Addr): TagMap
      reads this
    {
      Read(State(), body, ea)
    }

    /** `tag(ea, key, value)`. */
    method Tag(ea: Addr, key: string, value: Value) returns (r: Result<Value>)
      modifies this
      ensures Outcome(State(), r) == Set(old(State()), body, ea, key, value)
      ensures old(Valid()) ==> Valid()
    {
      ghost var before := State();
      if value == Null {
        return Err(InvalidParameter);
      }
      if SetDispatched(key) {
        var o := SetAttribute(State(), ea, key, value);
        attrs := o.db.attrs;
        r := o.result;
      } else {
        r := StoreTag(ea, key, value);
      }
      if old(Valid()) {
        SetKeepsConsistent(before, body, ea, key, value);
      }
    }

    /** The comment path of `tag(ea, key, value)`: the non-canonical slot is
        folded in and cleared when it held tags, a new key is counted, and the
        canonical slot is written. */
    method StoreTag(ea: Addr, key: string, value: Value) returns (r: Result<Value>)
      requires value != Null && !SetDispatched(key)
      modifies this
      ensures Outcome(State(), r) == Set(old(State()), body, ea, key, value)
    {
      var canonicalIsRepeatable := ea !in body;
      var state := Decode(SlotAt(if canonicalIsRepeatable then nonRepeatable else repeatable, ea));
      if state != map[] {
        if canonicalIsRepeatable {
          nonRepeatable := nonRepeatable[ea := Plain("")];
        } else {
          repeatable := repeatable[ea := Plain("")];
        }
      }
      state := state + Decode(SlotAt(if canonicalIsRepeatable then repeatable else nonRepeatable, ea));
      if key !in state {
        if canonicalIsRepeatable {
          globals := RefIndex.Inc(globals, ea, key);
        } else {
          contents := RefIndex.Inc(contents, ea, key);
        }
      }
      r := Ok(if key in state then state[key] else Null);
      state := state[key := value];
      if canonicalIsRepeatable {
        repeatable := repeatable[ea := Encode(state)];
      } else {
        nonRepeatable := nonRepeatable[ea := Encode(state)];
      }
    }

    /** `tag(ea, key, None)`. */
    method Untag(ea: Addr, key: string) returns (r: Result<Value>)
      modifies this
      ensures Outcome(State(), r) == Delete(old(State()), body, ea, key)
      ensures old(Valid()) && (r.Ok? || NonCanonical(old(State()), body, ea).Keys <= Canonical(old(State()), body, ea).Keys) ==> Valid()
    {
      ghost var before := State();
      if DeleteDispatched(key) {
        var o := RemoveAttribute(State(), ea, key);
        attrs := o.db.attrs;
        r := o.result;
      } else {
        r := RemoveTag(ea, key);
      }
      if old(Valid()) && (r.Ok? || NonCanonical(before, body, ea).Keys <= Canonical(before, body, ea).Keys) {
        DeleteKeepsConsistent(before, body, ea, key);
      }
    }

    /** The comment path of `tag(ea, key, None)`: the non-canonical slot is
        folded in and cleared, when it held tags, before the key is looked up;
        a present key is removed from the canonical slot and uncounted. */
    method RemoveTag(ea: Addr, key: string) returns (r: Result<Value>)
      requires !DeleteDispatched(key)
      modifies this
      ensures Outcome(State(), r) == Delete(old(State()), body, ea, key)
    {
      var canonicalIsRepeatable := ea !in body;
      var state := Decode(SlotAt(if canonicalIsRepeatable then nonRepeatable else repeatable, ea));
      if state != map[] {
        if canonicalIsRepeatable {
          nonRepeatable := nonRepeatable[ea := Plain("")];
        } else {
          repeatable := repeatable[ea := Plain("")];
        }
      }
      state := state + Decode(SlotAt(if canonicalIsRepeatable then repeatable else nonRepeatable, ea));
      if key !in state {
        return Err(MissingTag);
      }
      r := Ok(state[key]);
      state := state - {key};
      if canonicalIsRepeatable {
        repeatable := repeatable[ea := Encode(state)];
        globals := RefIndex.Dec(globals, ea, key);
      } else {
        nonRepeatable := nonRepeatable[ea := Encode(state)];
        contents := RefIndex.Dec(contents, ea, key);
      }
    }

    /** `color(ea, rgb)`: a 24-bit colour reads back unchanged. */
    method SetColor(ea: Addr, rgb: int)
      modifies this
      ensures State() == TagStore.SetColor(old(State()), ea, rgb)
      ensures 0 <= rgb < 0x100_0000 ==> Color(ea) == Some(rgb)
      ensures old(Valid()) ==> Valid()
    {
      ghost var before := State();
      attrs := attrs.(colors := attrs.colors[ea := Colors.ToRaw(rgb)]);
      assert State() == TagStore.SetColor(before, ea, rgb);
      if old(Valid()) {
        ConsistentWhenSlotsUntouched(before, State(), body);
      }
    }

    /** `color(ea, None)`: afterwards the address reads as uncoloured. */
    method ClearColor(ea: Addr)
      modifies this
      ensures State() == TagStore.ClearColor(old(State()), ea)
      ensures Color(ea) == None
      ensures old(Valid()) ==> Valid()
    {
      ghost var before := State();
      attrs := attrs.(colors := attrs.colors[ea := Colors.DefColor]);
      assert State() == TagStore.ClearColor(before, ea);
      if old(Valid()) {
        ConsistentWhenSlotsUntouched(before, State(), body);
      }
    }

    /** `erase(ea)`: deletes each tag that `tag(ea)` lists, in whatever order
        the dictionary yields them, then clears the colour. A colour shows up
        in that listing as the implicit `__color__` tag, which the delete path
        does not dispatch, so erasing a coloured address raises
        `MissingTagError` unless a `__color__` key is stored in a comment. */
    method Erase(ea: Addr) returns (r: Result<()>)
      modifies this
      ensures r.Ok? <==> !EraseFails(old(State()), body, ea)
      ensures r.Err? ==> r.error == MissingTag && RawColor(attrs, ea) == RawColor(old(attrs), ea)
      ensures r.Ok? ==> Color(ea) == None
      ensures r.Ok? ==> forall k :: DeleteDispatched(k) ==> ImplicitOf(attrs, ea, k).None?
      ensures r.Ok? ==> forall k :: k in Tags(ea) ==> DeleteDispatched(k) && k in Stored(old(State()), body, ea)
      ensures SameElsewhere(old(State()), State(), ea)
      ensures r.Ok? && old(Valid()) ==> Valid()
    {
      ghost var s0 := State();
      var keys := Read(State(), body, ea).Keys;
      EraseStart(s0, body, ea);
      while keys != {}
        invariant ErasedExcept(s0, State(), body, ea, keys)
        invariant old(Valid()) ==> Valid()
        decreases keys
      {
        var k :| k in keys;
        ghost var before := State();
        DeleteEffect(before, body, ea, k);
        var res := Untag(ea, k);
        EraseStep(s0, before, State(), body, ea, keys, k, res);
        if res.Err? {
          return Err(res.error);
        }
        keys := keys - {k};
      }
      EraseFinish(s0, State(), body, ea);
      ClearColor(ea);
      return Ok(());
    }

    /** `erase(ea)` as evidently intended: the implicit colour is left to the
        final `color(ea, None)` instead of being deleted as a tag, so erasing
        never fails. */
    method EraseCorrected(ea: Addr)
      modifies this
      ensures Color(ea) == None
      ensures forall k :: DeleteDispatched(k) ==> ImplicitOf(attrs, ea, k).None?
      ensures forall k :: k in Tags(ea) ==> DeleteDispatched(k) && k in Stored(old(State()), body, ea)
      ensures SameElsewhere(old(State()), State(), ea)
      ensures old(Valid()) ==> Valid()
    {
      ghost var s0 := State();
      var keys := Read(State(), body, ea).Keys;
      if ColorKey !in Stored(State(), body, ea) {
        keys := keys - {ColorKey};
      }
      EraseStart(s0, body, ea);
      while keys != {}
        invariant ErasedCore(s0, State(), body, ea, keys)
        invariant ColorKey in keys ==> ColorKey in Stored(s0, body, ea)
        invariant old(Valid()) ==> Valid()
        decreases keys
      {
        var k :| k in keys;
        ghost var before := State();
        DeleteEffect(before, body, ea, k);
        var res := Untag(ea, k);
        EraseStepSkippingColor(s0, before, State(), body, ea, keys, k, res);
        keys := keys - {k};
      }
      EraseFinish(s0, State(), body, ea);
      ClearColor(ea);
    }
  }
}
