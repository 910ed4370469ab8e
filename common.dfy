/** Values shared by every module of the model: optional values, the
    exceptions the library raises, and the ASCII case mapping that Python 2's
    `str.lower`, `str.upper` and `str.capitalize` apply to byte strings. */
module Common {

  type Addr = int

  datatype Option<+T> = None | Some(value: T)

  /** The exceptions raised along the modelled paths. `NoMatchingOverload`
      stands for the multicase dispatcher finding no overload for the
      argument types; `KeyError` for a failed dictionary lookup; `NameError`
      for a name that is not bound where it is evaluated. */
  datatype Error =
    | InvalidParameter
    | MissingTag
    | DisassemblerError
    | NoMatchingOverload
    | KeyError
    | NameError

  datatype Result<+T> = Ok(value: T) | Err(error: Error)

  predicate IsUpperChar(c: char) { 'A' <= c <= 'Z' }
  predicate IsLowerChar(c: char) { 'a' <= c <= 'z' }

  function LowerChar(c: char): (r: char)
    ensures !IsUpperChar(r)
  {
    if IsUpperChar(c) then (c as int + 32) as char else c
  }

  function UpperChar(c: char): (r: char)
    ensures !IsLowerChar(r)
  {
    if IsLowerChar(c) then (c as int - 32) as char else c
  }

  function Lower(s: string): (r: string)
    ensures |r| == |s|
    ensures forall i :: 0 <= i < |s| ==> r[i] == LowerChar(s[i])
  {
    if s == [] then [] else [LowerChar(s[0])] + Lower(s[1..])
  }

  /** Python's `str.capitalize`: the first character upper-cased, the rest lower-cased. */
  function Capitalize(s: string): (r: string)
    ensures |r| == |s|
    ensures s != [] ==> r[0] == UpperChar(s[0])
    ensures forall i :: 0 < i < |s| ==> r[i] == LowerChar(s[i])
    ensures Lower(r) == Lower(s)
  {
    if s == [] then [] else [UpperChar(s[0])] + Lower(s[1..])
  }

  /** A second update of the same key overrides the first. */
  lemma {:induction false} UpdateTwice<K, V>(m: map<K, V>, k: K, a: V, b: V)
    ensures m[k := a][k := b] == m[k := b]
  {
    assert m[k := a][k := b].Keys == m[k := b].Keys;
  }

  /** Removing a key just added to a map that lacked it gives the map back. */
  lemma {:induction false} RemoveAdded<K, V>(m: map<K, V>, k: K, v: V)
    requires k !in m
    ensures m[k := v] - {k} == m
  {
    assert (m[k := v] - {k}).Keys == m.Keys;
  }

  function StartsWith(s: string, prefix: string): bool
  {
    |prefix| <= |s| && s[..|prefix|] == prefix
  }
}
