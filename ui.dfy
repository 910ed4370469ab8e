/** The console side of the user interface: the yes/no/cancel question and
    the progress bar that reports to the console. The host's dialog and the
    console output are not modelled; the button the user presses is an input. */
module Ui {
  import opened Common

  /** The codes `ask_yn` is given for its default button. */
  const State: map<string, int> := map["no" := 0, "yes" := 1, "cancel" := -1]

  /** The lowered names of the keywords passed with a true value. */
  function DefaultNames(default: map<string, bool>): (r: set<string>)
    ensures forall n :: n in default && default[n] ==> Lower(n) in r
    ensures forall k :: k in r ==> exists n :: n in default && default[n] && k == Lower(n)
  {
    set n | n in default && default[n] :: Lower(n)
  }

  /** What the answer code from the host means: no, yes, or anything else (cancel). */
  function Answer(reply: int): (r: Option<bool>)
    ensures r == Some(false) <==> reply == 0
    ensures r == Some(true) <==> reply == 1
    ensures r.None? <==> reply != 0 && reply != 1
  {
    if reply == 0 then Some(false) else if reply == 1 then Some(true) else None
  }

  /** `ask(string, **default)`. The default button is one of the keywords
      given a true value, whichever the set yields first, or "cancel" when
      there is none; a name other than yes, no or cancel fails the lookup.
      `reply` is the code the dialog returns. The result is the code the
      dialog was opened with and the answer. */
  method Ask(default: map<string, bool>, reply: int) returns (r: Result<(int, Option<bool>)>)
    ensures DefaultNames(default) == {} ==> r == Ok((-1, Answer(reply)))
    ensures DefaultNames(default) <= State.Keys ==> r.Ok?
    ensures r.Ok? ==> r.value.1 == Answer(reply)
    ensures r.Ok? && DefaultNames(default) != {} ==> exists k :: k in DefaultNames(default) && k in State && r.value.0 == State[k]
    ensures r.Err? ==> r.error == KeyError && exists k :: k in DefaultNames(default) && k !in State
  {
    var keys := DefaultNames(default);
    var dflt := "cancel";
    if keys != {} {
      dflt :| dflt in keys;
    }
    if dflt !in State {
      return Err(KeyError);
    }
    return Ok((State[dflt], Answer(reply)));
  }

  /** A boolean keyword that picks one button as the default opens the dialog on it. */
  lemma {:induction false} SingleDefault(name: string)
    requires name in State
    ensures DefaultNames(map[name := true]) == {Lower(name)}
    ensures Lower(name) == name
  {
    assert forall i :: 0 <= i < |name| ==> !IsUpperChar(name[i]);
    assert Lower(name) == name;
    var r := DefaultNames(map[name := true]);
    assert Lower(name) in r;
  }

  /** The state of the console progress bar as the object holds it. */
  datatype Bar = Bar(value: int, minimum: int, maximum: int)

  /** The options `update` reads, each `None` when it was not passed; the
      text is printed to the console, which the model does not show. */
  datatype Options = Options(min: Option<int>, max: Option<int>, current: Option<int>, value: Option<int>)

  /** The bar after `update(**opts)`: bounds replaced when given, and the value
      replaced by `value` if given, otherwise by `current` if given. */
  function Updated(b: Bar, opts: Options): (r: Bar)
    ensures r.minimum == if opts.min.Some? then opts.min.value else b.minimum
    ensures r.maximum == if opts.max.Some? then opts.max.value else b.maximum
    ensures opts.value.Some? ==> r.value == opts.value.value
    ensures opts.value.None? && opts.current.Some? ==> r.value == opts.current.value
    ensures opts.value.None? && opts.current.None? ==> r.value == b.value
  {
    var b1 := if opts.min.Some? then b.(minimum := opts.min.value) else b;
    var b2 := if opts.max.Some? then b1.(maximum := opts.max.value) else b1;
    var b3 := if opts.current.Some? then b2.(value := opts.current.value) else b2;
    if opts.value.Some? then b3.(value := opts.value.value) else b3
  }

  /** Updating again with the same options changes nothing more. */
  lemma {:induction false} UpdateIsIdempotent(b: Bar, opts: Options)
    ensures Updated(Updated(b, opts), opts) == Updated(b, opts)
  {
  }

  /** An update with no options leaves the bar as it was. */
  lemma {:induction false} EmptyUpdateKeepsBar(b: Bar)
    ensures Updated(b, Options(None, None, None, None)) == b
  {
  }

  /** The `minimum`, `maximum` and `current` properties as written: each
      getter takes the bar as `s` but reads `self`, which is not bound there,
      so reading any of them raises `NameError` whatever the bar holds. */
  function PropertiesAsWritten(b: Bar): (r: (Result<int>, Result<int>, Result<int>))
    ensures r.0.Err? && r.1.Err? && r.2.Err?
  {
    (Err(NameError), Err(NameError), Err(NameError))
  }

  /** The properties as evidently intended: the minimum, maximum and value the bar holds. */
  function Properties(b: Bar): (r: (int, int, int))
    ensures Updated(b, Options(Some(r.0), Some(r.1), None, Some(r.2))) == b
  {
    (b.minimum, b.maximum, b.value)
  }

  /** After `update(min=lo, max=hi, value=v)` the intended properties read
      `lo`, `hi` and `v` back, where the written ones raise. */
  lemma {:induction false} PropertiesReadBack(b: Bar, lo: int, hi: int, v: int)
    ensures Properties(Updated(b, Options(Some(lo), Some(hi), None, Some(v)))) == (lo, hi, v)
    ensures PropertiesAsWritten(Updated(b, Options(Some(lo), Some(hi), None, Some(v)))) != (Ok(lo), Ok(hi), Ok(v))
  {
  }

  /** `ConsoleProgress`: a progress bar that keeps its state in fields. */
  class ConsoleProgress {
    var value: int
    var minimum: int
    var maximum: int

    function Current(): Bar
      reads this
    {
      Bar(value, minimum, maximum)
    }

    constructor()
      ensures Current() == Bar(0, 0, 0)
    {
      value := 0;
      minimum, maximum := 0, 0;
    }

    /** `update(**opts)`: returns the value the bar held before the call. */
    method Update(opts: Options) returns (res: int)
      modifies this
      ensures res == old(value)
      ensures Current() == Updated(old(Current()), opts)
    {
      if opts.min.Some? {
        minimum := opts.min.value;
      }
      if opts.max.Some? {
        maximum := opts.max.value;
      }
      res := value;
      if opts.current.Some? {
        value := opts.current.value;
      }
      if opts.value.Some? {
        value := opts.value.value;
      }
    }
  }
}
