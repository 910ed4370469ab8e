/** A reference index (`internal.comment.globals` or `internal.comment.contents`):
    for every tag name the number of addresses carrying it, and for every
    address the set of tag names recorded there. */
module RefIndex {
  import opened Common

  datatype Index = Index(counts: map<string, nat>, names: map<Addr, set<string>>)

  const Empty: Index := Index(map[], map[])

  /** The names recorded at `ea` (none when the address is not in the index). */
  function NamesAt(idx: Index, ea: Addr): set<string>
  {
    if ea in idx.names then idx.names[ea] else {}
  }

  function Count(idx: Index, k: string): nat
  {
    if k in idx.counts then idx.counts[k] else 0
  }

  /** The addresses at which `k` is recorded. */
  ghost function Holders(idx: Index, k: string): set<Addr>
  {
    set a | a in idx.names && k in idx.names[a]
  }

  /** Only addresses with at least one name are listed, and each count is
      the number of addresses recording that name. */
  ghost predicate Valid(idx: Index)
  {
    && (forall a :: a in idx.names ==> idx.names[a] != {})
    && (forall k :: Count(idx, k) == |Holders(idx, k)|)
  }

  /** `inc(ea, k)`: records `k` at `ea`; the count of `k` grows only on its
      first occurrence at `ea`. */
  function Inc(idx: Index, ea: Addr, k: string): (r: Index)
    ensures NamesAt(r, ea) == NamesAt(idx, ea) + {k}
    ensures forall a :: a != ea ==> NamesAt(r, a) == NamesAt(idx, a)
  {
    if k in NamesAt(idx, ea) then idx
    else Index(idx.counts[k := Count(idx, k) + 1], idx.names[ea := NamesAt(idx, ea) + {k}])
  }

  /** `dec(ea, k)`: forgets `k` at `ea`; an address left without names leaves the index. */
  function Dec(idx: Index, ea: Addr, k: string): (r: Index)
    ensures NamesAt(r, ea) == NamesAt(idx, ea) - {k}
    ensures forall a :: a != ea ==> NamesAt(r, a) == NamesAt(idx, a)
  {
    if k !in NamesAt(idx, ea) then idx
    else
      var rest := NamesAt(idx, ea) - {k};
      Index(idx.counts[k := if Count(idx, k) > 0 then Count(idx, k) - 1 else 0],
            if rest == {} then idx.names - {ea} else idx.names[ea := rest])
  }

  /** `name()`: every tag name with a non-zero count. */
  function Names(idx: Index): set<string>
  {
    set k | k in idx.counts && idx.counts[k] > 0
  }

  lemma EmptyIsValid()
    ensures Valid(Empty)
  {
    forall k ensures Count(Empty, k) == |Holders(Empty, k)| {
      assert Holders(Empty, k) == {};
    }
  }

  /** Two indexes that record the same names at every address have the same holders of `k`. */
  lemma SameHolders(idx: Index, idx': Index, k: string)
    requires forall a :: k in NamesAt(idx, a) <==> k in NamesAt(idx', a)
    ensures Holders(idx, k) == Holders(idx', k)
  {
    forall a ensures a in Holders(idx, k) <==> a in Holders(idx', k) {
      assert a in Holders(idx, k) <==> k in NamesAt(idx, a);
      assert a in Holders(idx', k) <==> k in NamesAt(idx', a);
    }
  }

  lemma IncHolders(idx: Index, ea: Addr, k: string)
    requires k !in NamesAt(idx, ea)
    ensures Holders(Inc(idx, ea, k), k) == Holders(idx, k) + {ea}
    ensures ea !in Holders(idx, k)
  {
    var r := Inc(idx, ea, k);
    forall a ensures a in Holders(r, k) <==> a in Holders(idx, k) + {ea} {
      assert a in Holders(r, k) <==> k in NamesAt(r, a);
      assert a in Holders(idx, k) <==> k in NamesAt(idx, a);
    }
  }

  lemma DecHolders(idx: Index, ea: Addr, k: string)
    requires k in NamesAt(idx, ea)
    ensures Holders(idx, k) == Holders(Dec(idx, ea, k), k) + {ea}
    ensures ea !in Holders(Dec(idx, ea, k), k)
  {
    var r := Dec(idx, ea, k);
    forall a ensures a in Holders(r, k) <==> a in Holders(idx, k) - {ea} {
      assert a in Holders(r, k) <==> k in NamesAt(r, a);
      assert a in Holders(idx, k) <==> k in NamesAt(idx, a);
    }
  }

  lemma IncKeepsValid(idx: Index, ea: Addr, k: string)
    requires Valid(idx)
    ensures Valid(Inc(idx, ea, k))
    ensures Count(Inc(idx, ea, k), k) == Count(idx, k) + (if k in NamesAt(idx, ea) then 0 else 1)
  {
    var r := Inc(idx, ea, k);
    if k !in NamesAt(idx, ea) {
      forall k' ensures Count(r, k') == |Holders(r, k')| {
        if k' == k {
          IncHolders(idx, ea, k);
        } else {
          SameHolders(r, idx, k');
        }
      }
    }
  }

  lemma DecKeepsValid(idx: Index, ea: Addr, k: string)
    requires Valid(idx)
    ensures Valid(Dec(idx, ea, k))
    ensures Count(Dec(idx, ea, k), k) == Count(idx, k) - (if k in NamesAt(idx, ea) then 1 else 0)
  {
    var r := Dec(idx, ea, k);
    if k in NamesAt(idx, ea) {
      forall k' ensures Count(r, k') == |Holders(r, k')| {
        if k' == k {
          DecHolders(idx, ea, k);
        } else {
          SameHolders(r, idx, k');
        }
      }
    }
  }

  /** Recording a new name and forgetting it again restores every count. */
  lemma IncThenDec(idx: Index, ea: Addr, k: string)
    requires k !in NamesAt(idx, ea)
    ensures forall k' :: Count(Dec(Inc(idx, ea, k), ea, k), k') == Count(idx, k')
    ensures forall a :: NamesAt(Dec(Inc(idx, ea, k), ea, k), a) == NamesAt(idx, a)
  {
  }

  /** `name()` lists exactly the names recorded at some address. */
  lemma NamesAreRecorded(idx: Index, k: string)
    requires Valid(idx)
    ensures k in Names(idx) <==> exists a :: k in NamesAt(idx, a)
  {
    if !exists a :: k in NamesAt(idx, a) {
      forall a ensures a !in Holders(idx, k) {
        assert a in Holders(idx, k) <==> k in NamesAt(idx, a);
      }
      assert Holders(idx, k) == {};
    } else {
      var a :| k in NamesAt(idx, a);
      assert a in Holders(idx, k);
    }
  }
}
