/** `ui.keyboard`: hotkey combinations written by a person (`"Ctrl+Shift+A"`,
    `"shift-ctrl-a"`, or a `(modifiers, key)` pair) are normalised to one
    canonical pair, which keys a cache of the callables mapped through the
    host. Python 2's `str.lower` and `str.capitalize` act on ASCII letters
    only, as in `Common`. */
module Hotkeys {
  import opened Common

  const Separators: set<char> := {'-', '+', '_'}
  const Modifiers: set<string> := {"ctrl", "shift", "alt"}

  /** The characters a combination is split at: the separators, and the null
      character `__normalize_key__` replaces them with before splitting. */
  predicate IsSplit(c: char)
  {
    c in Separators || c == '\0'
  }

  predicate NoSplit(s: string)
  {
    forall i :: 0 <= i < |s| ==> !IsSplit(s[i])
  }

  predicate NoUpper(s: string)
  {
    forall i :: 0 <= i < |s| ==> !IsUpperChar(s[i])
  }

  /** The canonical pair: modifier names in sorted order, and one key character. */
  datatype Hotkey = Hotkey(modifiers: seq<string>, key: string)

  /** What a caller passes as a combination: text, or a `(modifiers, key)` tuple. */
  datatype KeyArg = Text(s: string) | Combo(modifiers: seq<string>, key: string)

  /** `s.replace(sep, '\0')` for each separator, then `split('\0')`. */
  function Split(s: string): (r: seq<string>)
    ensures |r| >= 1
    ensures forall i :: 0 <= i < |r| ==> NoSplit(r[i])
  {
    if s == [] then [""]
    else
      var rest := Split(s[1..]);
      if IsSplit(s[0]) then [""] + rest
      else [[s[0]] + rest[0]] + rest[1..]
  }

  /** `sep.join(parts)`. */
  function Join(sep: char, parts: seq<string>): string
    requires |parts| >= 1
  {
    if |parts| == 1 then parts[0] else parts[0] + [sep] + Join(sep, parts[1..])
  }

  /** `{item.lower() for item in pieces}`. */
  function Components(s: string): set<string>
  {
    set p | p in Split(s) :: Lower(p)
  }

  /** The place of a modifier name in Python's string order: "alt" < "ctrl" < "shift". */
  function Rank(m: string): nat
  {
    if m == "alt" then 0 else if m == "ctrl" then 1 else 2
  }

  /** `tuple(sorted(modifiers))`, kept to the modifier names. */
  function SortedModifiers(mods: set<string>): (r: seq<string>)
    ensures forall m :: m in r <==> m in mods * Modifiers
    ensures forall i, j :: 0 <= i < j < |r| ==> Rank(r[i]) < Rank(r[j])
  {
    (if "alt" in mods then ["alt"] else []) +
    (if "ctrl" in mods then ["ctrl"] else []) +
    (if "shift" in mods then ["shift"] else [])
  }

  /** The first lowered piece that is not a modifier name. */
  function FirstKey(pieces: seq<string>): (k: string)
    ensures (exists p :: p in pieces && Lower(p) !in Modifiers) ==>
              k !in Modifiers && exists p :: p in pieces && k == Lower(p)
  {
    if pieces == [] then ""
    else if Lower(pieces[0]) in Modifiers then
      assert forall p :: p in pieces && p != pieces[0] ==> p in pieces[1..];
      FirstKey(pieces[1..])
    else Lower(pieces[0])
  }

  predicate IsNormalized(h: Hotkey)
  {
    && (forall i :: 0 <= i < |h.modifiers| ==> h.modifiers[i] in Modifiers)
    && h.modifiers == SortedModifiers(set m | m in h.modifiers)
    && |h.key| == 1
    && NoUpper(h.key)
    && NoSplit(h.key)
  }

  lemma LowerKeepsNoSplit(s: string)
    requires NoSplit(s)
    ensures NoSplit(Lower(s)) && NoUpper(Lower(s))
  {
  }

  lemma SizeOne<T>(s: set<T>, x: T)
    requires x in s
    ensures |s| == 1 <==> s == {x}
  {
    if |s| == 1 {
      assert s == (s - {x}) + {x};
      assert |s - {x}| == 0;
    }
  }

  /** `__normalize_key__` of a string. */
  function NormalizeText(s: string): (r: Result<Hotkey>)
    ensures r.Err? ==> r.error == InvalidParameter
  {
    var comps := Components(s);
    var mods := comps * Modifiers;
    var keys := comps - mods;
    if |keys| != 1 then Err(InvalidParameter)
    else
      var k := FirstKey(Split(s));
      if |k| != 1 then Err(InvalidParameter)
      else Ok(Hotkey(SortedModifiers(mods), k))
  }

  lemma SortedModifiersAreNormal(mods: set<string>)
    requires mods <= Modifiers
    ensures (set m | m in SortedModifiers(mods)) == mods
    ensures SortedModifiers(set m | m in SortedModifiers(mods)) == SortedModifiers(mods)
  {
  }

  lemma KeyOfComponents(s: string) returns (p: string)
    requires |Components(s) - Modifiers| == 1
    ensures p in Split(s)
    ensures Components(s) - Modifiers == {FirstKey(Split(s))}
    ensures FirstKey(Split(s)) == Lower(p)
  {
    var pieces := Split(s);
    var keys := Components(s) - Modifiers;
    var only :| only in keys;
    SizeOne(keys, only);
    var p0 :| p0 in pieces && only == Lower(p0);
    var k := FirstKey(pieces);
    p :| p in pieces && k == Lower(p);
    assert k in keys;
  }

  /** A combination is accepted exactly when, once the modifier names are set
      aside, one part of a single character is left; the result is that part
      with the modifier names present, in sorted order. */
  lemma {:induction false} NormalizeTextMeaning(s: string)
    ensures NormalizeText(s).Ok? <==> exists k :: Components(s) - Modifiers == {k} && |k| == 1
    ensures NormalizeText(s).Ok? ==> IsNormalized(NormalizeText(s).value)
    ensures NormalizeText(s).Ok? ==> Components(s) - Modifiers == {NormalizeText(s).value.key}
    ensures NormalizeText(s).Ok? ==> (set m | m in NormalizeText(s).value.modifiers) == Components(s) * Modifiers
  {
    var comps := Components(s);
    var mods := comps * Modifiers;
    assert comps - mods == comps - Modifiers;
    if |comps - Modifiers| == 1 {
      var p := KeyOfComponents(s);
      var k := FirstKey(Split(s));
      if |k| == 1 {
        LowerKeepsNoSplit(p);
        SortedModifiersAreNormal(mods);
        assert NormalizeText(s) == Ok(Hotkey(SortedModifiers(mods), k));
      }
    }
  }

  /** `__normalize_key__`: a tuple is joined with a separator and normalised as text. */
  function NormalizeKey(arg: KeyArg, sep: char): (r: Result<Hotkey>)
    requires sep in Separators
    ensures r.Ok? ==> IsNormalized(r.value)
    ensures r.Err? ==> r.error == InvalidParameter
  {
    match arg
    case Text(s) =>
      NormalizeTextMeaning(s);
      NormalizeText(s)
    case Combo(mods, key) =>
      NormalizeTextMeaning(Join(sep, mods + [key]));
      NormalizeText(Join(sep, mods + [key]))
  }

  function Capitalized(parts: seq<string>): (r: seq<string>)
    ensures |r| == |parts|
    ensures forall i :: 0 <= i < |parts| ==> r[i] == Capitalize(parts[i])
  {
    seq(|parts|, i requires 0 <= i < |parts| => Capitalize(parts[i]))
  }

  /** `__of_key__`: the text the host is given for a normalised pair, each
      part capitalised; anything other than a tuple is refused. */
  function OfKey(arg: KeyArg, sep: char): (r: Result<string>)
    requires sep in Separators
    ensures r.Err? <==> arg.Text?
    ensures r.Err? ==> r.error == InvalidParameter
  {
    match arg
    case Text(_) => Err(InvalidParameter)
    case Combo(mods, key) => Ok(Join(sep, Capitalized(mods) + [Capitalize(key)]))
  }

  // ---------------------------------------------------------------- properties

  lemma {:induction false} SplitNoSplit(p: string)
    requires NoSplit(p)
    ensures Split(p) == [p]
  {
    if p != [] {
      SplitNoSplit(p[1..]);
      assert [p[0]] + p[1..] == p;
    }
  }

  lemma {:induction false} SplitAfterPart(p: string, sep: char, rest: string)
    requires NoSplit(p) && IsSplit(sep)
    ensures Split(p + [sep] + rest) == [p] + Split(rest)
  {
    if p == [] {
      assert p + [sep] + rest == [sep] + rest;
      assert ([sep] + rest)[1..] == rest;
    } else {
      SplitAfterPart(p[1..], sep, rest);
      assert (p + [sep] + rest)[1..] == p[1..] + [sep] + rest;
      assert [p[0]] + p[1..] == p;
    }
  }

  /** Splitting what was joined gives the parts back. */
  lemma {:induction false} SplitJoin(sep: char, parts: seq<string>)
    requires IsSplit(sep) && |parts| >= 1
    requires forall i :: 0 <= i < |parts| ==> NoSplit(parts[i])
    ensures Split(Join(sep, parts)) == parts
  {
    if |parts| == 1 {
      SplitNoSplit(parts[0]);
    } else {
      SplitJoin(sep, parts[1..]);
      SplitAfterPart(parts[0], sep, Join(sep, parts[1..]));
    }
  }

  lemma {:induction false} LowerOfNoUpper(s: string)
    requires NoUpper(s)
    ensures Lower(s) == s
  {
  }

  lemma ModifierIsLower(m: string)
    requires m in Modifiers
    ensures NoUpper(m) && NoSplit(m) && |m| >= 3
  {
  }

  lemma CapitalizeKeepsNoSplit(p: string)
    requires NoSplit(p)
    ensures NoSplit(Capitalize(p))
  {
    if p != [] {
      LowerKeepsNoSplit(p[1..]);
    }
  }

  /** Joining parts that lower-case to a normalised pair, and normalising the
      result, gives that pair back. */
  lemma JoinedComponents(h: Hotkey, sep: char, parts: seq<string>)
    requires sep in Separators
    requires |parts| == |h.modifiers| + 1
    requires forall i :: 0 <= i < |parts| ==> NoSplit(parts[i]) && Lower(parts[i]) == (h.modifiers + [h.key])[i]
    ensures Split(Join(sep, parts)) == parts
    ensures Components(Join(sep, parts)) == (set m | m in h.modifiers) + {h.key}
  {
    var s := Join(sep, parts);
    SplitJoin(sep, parts);
    var all := h.modifiers + [h.key];
    var mods := set m | m in h.modifiers;
    forall x ensures x in Components(s) <==> x in mods + {h.key} {
      if x in Components(s) {
        var p :| p in parts && x == Lower(p);
        var i :| 0 <= i < |parts| && parts[i] == p;
        assert x == all[i];
      }
      if x in mods {
        var i :| 0 <= i < |h.modifiers| && h.modifiers[i] == x;
        assert Lower(parts[i]) == x;
      }
      if x == h.key {
        assert Lower(parts[|parts| - 1]) == x;
      }
    }
  }

  /** Joining parts that lower-case to a normalised pair, and normalising the
      result, gives that pair back. */
  lemma {:induction false} NormalizeJoined(h: Hotkey, sep: char, parts: seq<string>)
    requires IsNormalized(h) && sep in Separators
    requires |parts| == |h.modifiers| + 1
    requires forall i :: 0 <= i < |parts| ==> NoSplit(parts[i]) && Lower(parts[i]) == (h.modifiers + [h.key])[i]
    ensures NormalizeText(Join(sep, parts)) == Ok(h)
  {
    var s := Join(sep, parts);
    var mods := set m | m in h.modifiers;
    JoinedComponents(h, sep, parts);
    assert h.key !in Modifiers;
    assert Components(s) - Modifiers == {h.key};
    assert Components(s) * Modifiers == mods;
    NormalizeTextMeaning(s);
    var r := NormalizeText(s).value;
    assert {r.key} == {h.key};
    assert (set m | m in r.modifiers) == mods;
  }

  /** What `__of_key__` produces for a normalised pair normalises back to it,
      whichever separator it joined with. */
  lemma {:induction false} OfKeyRoundTrip(h: Hotkey, sep: char)
    requires IsNormalized(h) && sep in Separators
    ensures OfKey(Combo(h.modifiers, h.key), sep).Ok?
    ensures NormalizeText(OfKey(Combo(h.modifiers, h.key), sep).value) == Ok(h)
  {
    var parts := Capitalized(h.modifiers) + [Capitalize(h.key)];
    forall i | 0 <= i < |parts|
      ensures NoSplit(parts[i]) && Lower(parts[i]) == (h.modifiers + [h.key])[i]
    {
      var x := (h.modifiers + [h.key])[i];
      if i < |h.modifiers| {
        ModifierIsLower(x);
      }
      CapitalizeKeepsNoSplit(x);
      LowerOfNoUpper(x);
    }
    NormalizeJoined(h, sep, parts);
  }

  /** Normalising a normalised pair changes nothing. */
  lemma {:induction false} NormalizeIsIdempotent(h: Hotkey, sep: char)
    requires IsNormalized(h) && sep in Separators
    ensures NormalizeKey(Combo(h.modifiers, h.key), sep) == Ok(h)
  {
    var parts := h.modifiers + [h.key];
    forall i | 0 <= i < |parts|
      ensures NoSplit(parts[i]) && Lower(parts[i]) == parts[i]
    {
      if i < |h.modifiers| {
        ModifierIsLower(parts[i]);
      }
      LowerOfNoUpper(parts[i]);
    }
    NormalizeJoined(h, sep, parts);
  }

  /** Only the set of lowered parts matters: order, case, repetition and the
      choice of separator do not change the normalised pair. */
  lemma {:induction false} SpellingDoesNotMatter(s: string, t: string)
    requires Components(s) == Components(t)
    ensures NormalizeText(s) == NormalizeText(t)
  {
    NormalizeTextMeaning(s);
    NormalizeTextMeaning(t);
    if NormalizeText(s).Ok? {
      var a, b := NormalizeText(s).value, NormalizeText(t).value;
      assert {a.key} == {b.key};
      assert (set m | m in a.modifiers) == (set m | m in b.modifiers);
    }
  }

  // ---------------------------------------------------------------- the keymap cache

  /** What a caller names when unmapping: a combination, or the callable mapped to one. */
  datatype UnmapArg<F> = ByKey(key: KeyArg) | ByCallable(callable: F)

  /** `keyboard.__cache__`: each normalised pair with the host's context for
      the mapping and the callable behind it. */
  class Keyboard<F(==)> {
    var cache: map<Hotkey, (nat, F)>

    ghost predicate Valid()
      reads this
    {
      forall h :: h in cache ==> IsNormalized(h)
    }

    constructor()
      ensures cache == map[] && Valid()
    {
      cache := map[];
    }

    /** `keyboard.map(key, callable)`. `sep` is the separator the host's set
        yields first; `deleted` is what `del_hotkey` reports for a mapping being
        replaced, and `ctx` what `add_hotkey` returns, 0 for failure. A
        replaced mapping is already dropped when `add_hotkey` fails. */
    method Map(key: KeyArg, callable: F, sep: char, deleted: bool, ctx: nat) returns (r: Result<Option<F>>)
      requires sep in Separators
      modifies this
      ensures NormalizeKey(key, sep).Err? ==> r == Err(InvalidParameter) && cache == old(cache)
      ensures NormalizeKey(key, sep).Ok? ==>
        var h := NormalizeKey(key, sep).value;
        if h in old(cache) && !deleted then r == Err(DisassemblerError) && cache == old(cache)
        else if ctx == 0 then r == Err(DisassemblerError) && cache == old(cache) - {h}
        else r == Ok(if h in old(cache) then Some(old(cache)[h].1) else None) && cache == old(cache)[h := (ctx, callable)]
      ensures old(Valid()) ==> Valid()
    {
      var normalized := NormalizeKey(key, sep);
      if normalized.Err? {
        return Err(normalized.error);
      }
      var hotkey := normalized.value;
      var res: Option<F> := None;
      if hotkey in cache {
        if !deleted {
          return Err(DisassemblerError);
        }
        res := Some(cache[hotkey].1);
      }
      if ctx == 0 {
        // the earlier mapping was popped before `add_hotkey` was called
        cache := cache - {hotkey};
        return Err(DisassemblerError);
      }
      // popping the earlier mapping and storing the new one is a single update
      cache := cache[hotkey := (ctx, callable)];
      return Ok(res);
    }

    /** `keyboard.unmap(key)`: a callable is looked up among the mappings,
        the first one found in the cache's order being taken. A combination
        that is not mapped gives `None`. */
    method Unmap(arg: UnmapArg<F>, sep: char, deleted: bool) returns (r: Result<Option<F>>)
      requires sep in Separators
      modifies this
      ensures arg.ByKey? && NormalizeKey(arg.key, sep).Err? ==> r == Err(InvalidParameter) && cache == old(cache)
      ensures arg.ByKey? && NormalizeKey(arg.key, sep).Ok? ==>
        var h := NormalizeKey(arg.key, sep).value;
        if h !in old(cache) then r == Ok(None) && cache == old(cache)
        else if !deleted then r == Err(DisassemblerError) && cache == old(cache)
        else r == Ok(Some(old(cache)[h].1)) && cache == old(cache) - {h}
      ensures arg.ByCallable? && (forall h :: h in old(cache) ==> old(cache)[h].1 != arg.callable) ==>
        r == Err(InvalidParameter) && cache == old(cache)
      ensures arg.ByCallable? && old(Valid()) && (exists h :: h in old(cache) && old(cache)[h].1 == arg.callable) ==>
        if deleted then r == Ok(Some(arg.callable)) && exists h :: h in old(cache) && old(cache)[h].1 == arg.callable && cache == old(cache) - {h}
        else r == Err(DisassemblerError) && cache == old(cache)
      ensures old(Valid()) ==> Valid()
    {
      var hotkey: Hotkey;
      match arg {
        case ByCallable(f) =>
          if h :| h in cache && cache[h].1 == f {
            if IsNormalized(h) {
              NormalizeIsIdempotent(h, sep);
            }
            var normalized := NormalizeKey(Combo(h.modifiers, h.key), sep);
            if normalized.Err? {
              return Err(normalized.error);
            }
            hotkey := normalized.value;
            assert old(Valid()) ==> hotkey == h && h in old(cache) && old(cache)[h].1 == f;
          } else {
            return Err(InvalidParameter);
          }
        case ByKey(key) =>
          var normalized := NormalizeKey(key, sep);
          if normalized.Err? {
            return Err(normalized.error);
          }
          hotkey := normalized.value;
      }
      if hotkey !in cache {
        return Ok(None);
      }
      if !deleted {
        return Err(DisassemblerError);
      }
      r := Ok(Some(cache[hotkey].1));
      cache := cache - {hotkey};
    }
  }

  /** Mapping a combination under one spelling and then under another, with
      the host accepting both, leaves one entry: the second callable replaces
      the first, which the second `map` returns. */
  method RemapReplaces<F(==)>(kb: Keyboard<F>, s: string, t: string, sep: char, f: F, g: F, ctx: nat, ctx': nat)
    returns (first: Result<Option<F>>, second: Result<Option<F>>)
    requires sep in Separators
    requires Components(s) == Components(t) && NormalizeText(s).Ok?
    requires ctx > 0 && ctx' > 0
    modifies kb
    ensures first.Ok? && second == Ok(Some(f))
    ensures kb.cache == old(kb.cache)[NormalizeText(s).value := (ctx', g)]
  {
    var h := NormalizeText(s).value;
    assert NormalizeKey(Text(s), sep) == Ok(h);
    first := kb.Map(Text(s), f, sep, true, ctx);
    SpellingDoesNotMatter(s, t);
    assert NormalizeKey(Text(t), sep) == Ok(h);
    second := kb.Map(Text(t), g, sep, true, ctx');
    UpdateTwice(old(kb.cache), h, (ctx, f), (ctx', g));
  }
}
