/** `select` and `selectcontents`: the boolean tag query. Each address the
    index lists is read once; `And` names tags an address must carry and
    that are then reported, `Or` names tags reported whenever present; an
    address with nothing to report is skipped. The addresses and what was
    read at each are the input, in the order the index lists them. */
module Select {
  import opened Common
  import opened Codec

  /** A keyword argument as given: one name, or a tuple, set or list of names. */
  datatype Arg = Scalar(name: string) | Several(names: set<string>)

  /** The keyword arguments of a query; `extraKeywords` records whether any
      keyword other than `And` and `Or` was passed. */
  datatype Query = Query(and: Option<Arg>, or: Option<Arg>, extraKeywords: bool)

  /** The names a keyword argument stands for once a single name is wrapped as a set. */
  function ArgNames(a: Option<Arg>): (r: set<string>)
    ensures a.None? ==> r == {}
    ensures a.Some? && a.value.Scalar? ==> r == {a.value.name}
  {
    match a
    case None => {}
    case Some(Scalar(s)) => {s}
    case Some(Several(ns)) => ns
  }

  /** `set(iter(arg))` applied to an argument that was never wrapped: a
      single name is iterated character by character. */
  function IteratedNames(a: Option<Arg>): (r: set<string>)
    ensures a.Some? && a.value.Scalar? ==> forall n :: n in r <==> |n| == 1 && n[0] in a.value.name
  {
    match a
    case None => {}
    case Some(Scalar(s)) =>
      var r := set c | c in s :: [c];
      assert forall n: string :: |n| == 1 ==> n == [n[0]];
      r
    case Some(Several(ns)) => ns
  }

  predicate NoQuery(q: Query)
  {
    q.and.None? && q.or.None? && !q.extraKeywords
  }

  function Restrict(d: TagMap, keys: set<string>): (r: TagMap)
    ensures r.Keys == d.Keys * keys
    ensures forall k :: k in r ==> r[k] == d[k]
  {
    map k | k in d && k in keys :: d[k]
  }

  /** What `select` reports for an address whose tags are `d`. */
  function Matched(q: Query, d: TagMap): (r: TagMap)
    ensures NoQuery(q) ==> r == d
    ensures !NoQuery(q) && ArgNames(q.and) <= d.Keys ==> r.Keys == d.Keys * (ArgNames(q.and) + ArgNames(q.or))
    ensures !NoQuery(q) && !(ArgNames(q.and) <= d.Keys) ==> r == map[]
    ensures forall k :: k in r ==> k in d && r[k] == d[k]
  {
    if NoQuery(q) then d
    else
      var or, and := ArgNames(q.or), ArgNames(q.and);
      if and != {} && !(and <= d.Keys) then map[]
      else Restrict(d, or) + Restrict(d, and)
  }

  /** `select(**boolean)` over the addresses of the global index. */
  function Select(q: Query, entries: seq<(Addr, TagMap)>): (r: seq<(Addr, TagMap)>)
    ensures |r| <= |entries|
    ensures forall p :: p in r ==> p.1 != map[] && exists i :: 0 <= i < |entries| && p == (entries[i].0, Matched(q, entries[i].1))
    ensures forall i :: 0 <= i < |entries| && Matched(q, entries[i].1) != map[] ==> (entries[i].0, Matched(q, entries[i].1)) in r
  {
    if entries == [] then []
    else
      var (ea, d) := entries[0];
      var res := Matched(q, d);
      var rest := Select(q, entries[1..]);
      assert forall i :: 1 <= i < |entries| ==> entries[i] == entries[1..][i - 1];
      if res != map[] then [(ea, res)] + rest else rest
  }

  /** `select` visits the addresses in the order the index lists them, so it
      is a filter: a listing split in two gives the two results in turn, and
      one address gives its match or nothing. */
  lemma {:induction false} SelectIsFilter(q: Query, a: seq<(Addr, TagMap)>, b: seq<(Addr, TagMap)>)
    ensures Select(q, a + b) == Select(q, a) + Select(q, b)
    ensures forall e :: Select(q, [e]) == if Matched(q, e.1) != map[] then [(e.0, Matched(q, e.1))] else []
    decreases |a|
  {
    forall e ensures Select(q, [e]) == if Matched(q, e.1) != map[] then [(e.0, Matched(q, e.1))] else [] {
      assert [e][1..] == [];
    }
    if a == [] {
      assert a + b == b;
    } else {
      assert (a + b)[1..] == a[1..] + b;
      SelectIsFilter(q, a[1..], b);
    }
  }

  /** Each address appears at most once in the listing. */
  predicate DistinctAddrs<T>(entries: seq<(Addr, T)>)
  {
    forall i, j :: 0 <= i < j < |entries| ==> entries[i].0 != entries[j].0
  }

  /** An address put ahead of a listing that lacks it keeps the addresses distinct. */
  lemma {:induction false} ConsDistinct<T>(x: (Addr, T), r: seq<(Addr, T)>)
    requires DistinctAddrs(r) && forall p :: p in r ==> p.0 != x.0
    ensures DistinctAddrs([x] + r)
  {
    var out := [x] + r;
    forall i, j | 0 <= i < j < |out| ensures out[i].0 != out[j].0 {
      assert out[j] == r[j - 1];
      if i > 0 {
        assert out[i] == r[i - 1];
      }
    }
  }

  /** The index lists each address once, so `select` reports it at most once. */
  lemma {:induction false} SelectOncePerAddress(q: Query, entries: seq<(Addr, TagMap)>)
    requires DistinctAddrs(entries)
    ensures DistinctAddrs(Select(q, entries))
  {
    if entries != [] {
      var rest := entries[1..];
      SelectOncePerAddress(q, rest);
      var r := Select(q, rest);
      forall p | p in r ensures p.0 != entries[0].0 {
        var i :| 0 <= i < |rest| && p == (rest[i].0, Matched(q, rest[i].1));
        assert rest[i] == entries[i + 1];
      }
      ConsDistinct((entries[0].0, Matched(q, entries[0].1)), r);
    }
  }

  /** The query with `And` replaced by the given names. */
  function WithAnd(q: Query, names: set<string>): (q': Query)
    ensures ArgNames(q'.and) == names && q'.or == q.or && !NoQuery(q')
  {
    q.(and := Some(Several(names)))
  }

  /** With a non-empty `And`, an address is reported exactly when it holds
      every name of `And`, and then with at least those names. */
  lemma {:induction false} SelectRequiring(q: Query, entries: seq<(Addr, TagMap)>)
    requires q.and.Some? && ArgNames(q.and) != {}
    ensures forall p :: p in Select(q, entries) ==> ArgNames(q.and) <= p.1.Keys
    ensures forall i :: 0 <= i < |entries| ==>
              ((entries[i].0, Matched(q, entries[i].1)) in Select(q, entries) <==> ArgNames(q.and) <= entries[i].1.Keys)
  {
    var r := Select(q, entries);
    var required := ArgNames(q.and);
    var k :| k in required;
    forall p | p in r ensures required <= p.1.Keys {
      var i :| 0 <= i < |entries| && p == (entries[i].0, Matched(q, entries[i].1));
    }
    forall i | 0 <= i < |entries|
      ensures (entries[i].0, Matched(q, entries[i].1)) in r <==> required <= entries[i].1.Keys
    {
      if required <= entries[i].1.Keys {
        assert k in Matched(q, entries[i].1);
      }
    }
  }

  /** `select(tag, *And, **boolean)`: the positional names join `And`, whose
      own names are taken by iterating it. Every address is reported, with
      what `select` matches for the rewritten query, exactly when it holds all
      of them. */
  function SelectTagged(tag: string, and: set<string>, q: Query, entries: seq<(Addr, TagMap)>): (r: seq<(Addr, TagMap)>)
    ensures forall p :: p in r ==> IteratedNames(q.and) + {tag} + and <= p.1.Keys
    ensures forall p :: p in r ==>
              exists i :: 0 <= i < |entries| && p == (entries[i].0, Matched(WithAnd(q, IteratedNames(q.and) + {tag} + and), entries[i].1))
    ensures forall i :: 0 <= i < |entries| ==>
              ((entries[i].0, Matched(WithAnd(q, IteratedNames(q.and) + {tag} + and), entries[i].1)) in r <==>
                IteratedNames(q.and) + {tag} + and <= entries[i].1.Keys)
  {
    var q' := WithAnd(q, IteratedNames(q.and) + {tag} + and);
    SelectRequiring(q', entries);
    Select(q', entries)
  }

  /** `select(tag, *And, **boolean)` as evidently intended: a single name
      given as `And` is one name, as the keyword-only overload reads it. */
  function SelectTaggedCorrected(tag: string, and: set<string>, q: Query, entries: seq<(Addr, TagMap)>): (r: seq<(Addr, TagMap)>)
    ensures forall p :: p in r ==> ArgNames(q.and) + {tag} + and <= p.1.Keys
    ensures forall p :: p in r ==>
              exists i :: 0 <= i < |entries| && p == (entries[i].0, Matched(WithAnd(q, ArgNames(q.and) + {tag} + and), entries[i].1))
    ensures forall i :: 0 <= i < |entries| ==>
              ((entries[i].0, Matched(WithAnd(q, ArgNames(q.and) + {tag} + and), entries[i].1)) in r <==>
                ArgNames(q.and) + {tag} + and <= entries[i].1.Keys)
  {
    var q' := WithAnd(q, ArgNames(q.and) + {tag} + and);
    SelectRequiring(q', entries);
    Select(q', entries)
  }

  /** What `selectcontents` reports for a function whose contents carry the
      names `names`: all of them for no query; otherwise, once every `And`
      name is present, the `And` names and the `Or` names present. */
  function MatchedNames(q: Query, names: set<string>): (r: set<string>)
    ensures NoQuery(q) ==> r == names
    ensures !NoQuery(q) ==> forall n :: n in r <==>
              ArgNames(q.and) <= names && (n in ArgNames(q.and) || (n in names && n in ArgNames(q.or)))
  {
    if NoQuery(q) then names
    else
      var or, and := ArgNames(q.or), ArgNames(q.and);
      if and != {} && !(and <= names) then {}
      else (or * names) + and
  }

  /** `selectcontents(**boolean)` over the names of the contents index. */
  function SelectContents(q: Query, entries: seq<(Addr, set<string>)>): (r: seq<(Addr, set<string>)>)
    ensures |r| <= |entries|
    ensures forall p :: p in r ==> p.1 != {} && exists i :: 0 <= i < |entries| && p == (entries[i].0, MatchedNames(q, entries[i].1))
    ensures forall i :: 0 <= i < |entries| && MatchedNames(q, entries[i].1) != {} ==> (entries[i].0, MatchedNames(q, entries[i].1)) in r
  {
    if entries == [] then []
    else
      var (ea, names) := entries[0];
      var res := MatchedNames(q, names);
      var rest := SelectContents(q, entries[1..]);
      assert forall i :: 1 <= i < |entries| ==> entries[i] == entries[1..][i - 1];
      if res != {} then [(ea, res)] + rest else rest
  }

  /** `selectcontents` is a filter over the listing in the same way. */
  lemma {:induction false} SelectContentsIsFilter(q: Query, a: seq<(Addr, set<string>)>, b: seq<(Addr, set<string>)>)
    ensures SelectContents(q, a + b) == SelectContents(q, a) + SelectContents(q, b)
    ensures forall e :: SelectContents(q, [e]) == if MatchedNames(q, e.1) != {} then [(e.0, MatchedNames(q, e.1))] else []
    decreases |a|
  {
    forall e ensures SelectContents(q, [e]) == if MatchedNames(q, e.1) != {} then [(e.0, MatchedNames(q, e.1))] else [] {
      assert [e][1..] == [];
    }
    if a == [] {
      assert a + b == b;
    } else {
      assert (a + b)[1..] == a[1..] + b;
      SelectContentsIsFilter(q, a[1..], b);
    }
  }

  /** `selectcontents` reports each function at most once. */
  lemma {:induction false} SelectContentsOncePerAddress(q: Query, entries: seq<(Addr, set<string>)>)
    requires DistinctAddrs(entries)
    ensures DistinctAddrs(SelectContents(q, entries))
  {
    if entries != [] {
      var rest := entries[1..];
      SelectContentsOncePerAddress(q, rest);
      var r := SelectContents(q, rest);
      forall p | p in r ensures p.0 != entries[0].0 {
        var i :| 0 <= i < |rest| && p == (rest[i].0, MatchedNames(q, rest[i].1));
        assert rest[i] == entries[i + 1];
      }
      ConsDistinct((entries[0].0, MatchedNames(q, entries[0].1)), r);
    }
  }

  /** The query with `Or` replaced by the given names. */
  function WithOr(q: Query, names: set<string>): (q': Query)
    ensures ArgNames(q'.or) == names && q'.and == q.and && !NoQuery(q')
  {
    q.(or := Some(Several(names)))
  }

  /** Once a query is given, a function is reported exactly when it carries
      every `And` name and, with no `And` name, at least one `Or` name. */
  lemma {:induction false} SelectContentsReports(q: Query, entries: seq<(Addr, set<string>)>)
    requires !NoQuery(q)
    ensures forall i :: 0 <= i < |entries| ==>
              ((entries[i].0, MatchedNames(q, entries[i].1)) in SelectContents(q, entries) <==>
                ArgNames(q.and) <= entries[i].1 && (ArgNames(q.and) != {} || ArgNames(q.or) * entries[i].1 != {}))
  {
    var r := SelectContents(q, entries);
    forall i | 0 <= i < |entries|
      ensures (entries[i].0, MatchedNames(q, entries[i].1)) in r <==>
                ArgNames(q.and) <= entries[i].1 && (ArgNames(q.and) != {} || ArgNames(q.or) * entries[i].1 != {})
    {
      var names := entries[i].1;
      var m := MatchedNames(q, names);
      if ArgNames(q.and) <= names && ArgNames(q.and) != {} {
        var n :| n in ArgNames(q.and);
        assert n in m;
      } else if ArgNames(q.and) <= names && ArgNames(q.or) * names != {} {
        var n :| n in ArgNames(q.or) * names;
        assert n in m;
      }
    }
  }

  /** `selectcontents(tag, *Or, **boolean)`: the positional names join `Or`,
      whose own names are taken by iterating it. A function is reported, with
      what `selectcontents` matches for the rewritten query, exactly when it
      carries every `And` name and, with no `And` name, one of those names. */
  function SelectContentsTagged(tag: string, or: set<string>, q: Query, entries: seq<(Addr, set<string>)>): (r: seq<(Addr, set<string>)>)
    ensures forall p :: p in r ==> ArgNames(q.and) <= p.1
    ensures forall p :: p in r ==>
              exists i :: 0 <= i < |entries| && p == (entries[i].0, MatchedNames(WithOr(q, IteratedNames(q.or) + {tag} + or), entries[i].1))
    ensures forall i :: 0 <= i < |entries| ==>
              ((entries[i].0, MatchedNames(WithOr(q, IteratedNames(q.or) + {tag} + or), entries[i].1)) in r <==>
                ArgNames(q.and) <= entries[i].1 && (ArgNames(q.and) != {} || (IteratedNames(q.or) + {tag} + or) * entries[i].1 != {}))
  {
    var q' := WithOr(q, IteratedNames(q.or) + {tag} + or);
    SelectContentsReports(q', entries);
    SelectContents(q', entries)
  }

  /** `selectcontents(tag, *Or, **boolean)` as evidently intended: a single
      name given as `Or` is one name. */
  function SelectContentsTaggedCorrected(tag: string, or: set<string>, q: Query, entries: seq<(Addr, set<string>)>): (r: seq<(Addr, set<string>)>)
    ensures forall p :: p in r ==> ArgNames(q.and) <= p.1
    ensures forall p :: p in r ==>
              exists i :: 0 <= i < |entries| && p == (entries[i].0, MatchedNames(WithOr(q, ArgNames(q.or) + {tag} + or), entries[i].1))
    ensures forall i :: 0 <= i < |entries| ==>
              ((entries[i].0, MatchedNames(WithOr(q, ArgNames(q.or) + {tag} + or), entries[i].1)) in r <==>
                ArgNames(q.and) <= entries[i].1 && (ArgNames(q.and) != {} || (ArgNames(q.or) + {tag} + or) * entries[i].1 != {}))
  {
    var q' := WithOr(q, ArgNames(q.or) + {tag} + or);
    SelectContentsReports(q', entries);
    SelectContents(q', entries)
  }

  // ---------------------------------------------------------------- properties

  /** With only `Or`, an address is reported exactly when it carries one of the names. */
  lemma {:induction false} OrReportsAnyMatch(or: Arg, d: TagMap)
    ensures Matched(Query(None, Some(or), false), d) != map[] <==> exists k :: k in d && k in ArgNames(Some(or))
  {
    var r := Matched(Query(None, Some(or), false), d);
    if exists k :: k in d && k in ArgNames(Some(or)) {
      var k :| k in d && k in ArgNames(Some(or));
      assert k in r;
    }
  }

  /** With a non-empty `And`, an address is reported exactly when it carries every name. */
  lemma {:induction false} AndReportsOnlyFullMatch(and: Arg, d: TagMap)
    requires ArgNames(Some(and)) != {}
    ensures Matched(Query(Some(and), None, false), d) != map[] <==> ArgNames(Some(and)) <= d.Keys
    ensures ArgNames(Some(and)) <= d.Keys ==> Matched(Query(Some(and), None, false), d).Keys == ArgNames(Some(and))
  {
    var names := ArgNames(Some(and));
    var k :| k in names;
    if names <= d.Keys {
      assert k in Matched(Query(Some(and), None, false), d);
    }
  }

  /** The names `selectcontents` reports are the keys `select` would report
      for the same tags: the two queries agree. */
  lemma {:induction false} ContentsAgreesWithSelect(q: Query, d: TagMap)
    ensures MatchedNames(q, d.Keys) == Matched(q, d).Keys
  {
    if !NoQuery(q) && ArgNames(q.and) <= d.Keys {
      assert d.Keys * (ArgNames(q.and) + ArgNames(q.or)) == d.Keys * ArgNames(q.or) + ArgNames(q.and);
    }
  }

  /** Passing a single name as `And` alongside a positional tag asks for its
      characters, not for the name: `select("t", And="ab")` requires the
      tags `a` and `b`, and an address tagged `t` and `ab` is not reported. */
  lemma ScalarAndIsIterated()
    ensures var q := Query(Some(Scalar("ab")), None, false);
            var d := map["t" := Bool(true), "ab" := Bool(true)];
            SelectTagged("t", {}, q, [(0, d)]) == [] && Select(q.(and := Some(Several({"t", "ab"}))), [(0, d)]) == [(0, d)]
  {
    var q := Query(Some(Scalar("ab")), None, false);
    var d := map["t" := Bool(true), "ab" := Bool(true)];
    assert "a" in IteratedNames(q.and);
    assert "a" !in d;
    var q2 := q.(and := Some(Several({"t", "ab"})));
    assert Matched(q2, d) == d;
  }

  /** The corrected overload reports that address. */
  lemma ScalarAndIsOneName()
    ensures var q := Query(Some(Scalar("ab")), None, false);
            var d := map["t" := Bool(true), "ab" := Bool(true)];
            SelectTaggedCorrected("t", {}, q, [(0, d)]) == [(0, d)]
  {
    var q := Query(Some(Scalar("ab")), None, false);
    var d := map["t" := Bool(true), "ab" := Bool(true)];
    var q2 := q.(and := Some(Several({"t", "ab"})));
    assert ArgNames(q.and) + {"t"} + {} == {"t", "ab"};
    assert SelectTaggedCorrected("t", {}, q, [(0, d)]) == Select(q2, [(0, d)]);
    assert Matched(q2, d) == d;
    assert [(0, d)][1..] == [];
  }

  /** The same for `Or` in `selectcontents`: `selectcontents("t", Or="ab")`
      asks for `a`, `b` and `t`, and misses a function whose contents carry `ab`. */
  lemma ScalarOrIsIterated()
    ensures var q := Query(None, Some(Scalar("ab")), false);
            SelectContentsTagged("t", {}, q, [(0, {"ab"})]) == [] &&
            SelectContentsTaggedCorrected("t", {}, q, [(0, {"ab"})]) == [(0, {"ab"})]
  {
    var q := Query(None, Some(Scalar("ab")), false);
    assert "ab" !in IteratedNames(q.or);
    var q1 := q.(or := Some(Several(IteratedNames(q.or) + {"t"} + {})));
    assert MatchedNames(q1, {"ab"}) == {};
    var q2 := q.(or := Some(Several(ArgNames(q.or) + {"t"} + {})));
    assert MatchedNames(q2, {"ab"}) == {"ab"};
  }
}
