/**
 The converter's state and its three handlers. The state holds the stored
 text, the two selected scales and the displayed result line; after every
 handler that changes the state the result is recomputed from the other
 three fields, as the component's effect does. `toFixed(2)` is left
 uninterpreted: it is the `fmt` parameter throughout.
 */
module Controller {
  import opened Units
  import opened Filter
  import opened Decimal

  /** Stands for `Number.prototype.toFixed(2)`. */
  type Formatter = real -> string

  datatype State = State(text: string, from: Unit, to: Unit, result: string)

  /** The result line `<left> <from symbol> = <right> <to symbol>`. */
  function Line(left: string, from: Unit, to: Unit, right: string): string {
    left + " " + Symbol(from) + " = " + right + " " + Symbol(to)
  }

  /** JavaScript's `text || "0"`: the empty string is falsy. */
  function OrZero(text: string): string {
    if text == "" then "0" else text
  }

  /** The effect body. When the text parses, the line shows the text itself
      and the converted value; when it does not, the line shows the literal
      `0` and the converted zero, whatever was typed. The `|| "0"` fallback
      never fires, because a text that parses is not empty. */
  function Recompute(text: string, from: Unit, to: Unit, fmt: Formatter): (r: string)
    requires Matches(text)
    ensures HasDigit(text) ==> r == Line(text, from, to, fmt(Convert(Parse(text).value, from, to)))
    ensures !HasDigit(text) ==> r == Line("0", from, to, fmt(Convert(0.0, from, to)))
  {
    match Parse(text)
    case Some(temp) => Line(OrZero(text), from, to, fmt(Convert(temp, from, to)))
    case None => Line("0", from, to, fmt(Convert(0.0, from, to)))
  }

  /** A text without a digit displays exactly as if `0` had been typed. */
  lemma DigitFreeShowsZero(text: string, from: Unit, to: Unit, fmt: Formatter)
    requires Matches(text) && !HasDigit(text)
    ensures Matches("0")
    ensures Recompute(text, from, to, fmt) == Recompute("0", from, to, fmt)
  {
    ZeroExample();
    assert HasDigit("0") by { assert IsDigit("0"[0]); }
  }

  /** The state the component starts in. */
  function Init(): State {
    State("", Celsius, Fahrenheit, "0 °C = 32.00 °F")
  }

  /** The result line is the one the effect computes from the other three
      fields, and the text is one the filter admits. */
  predicate Consistent(st: State, fmt: Formatter) {
    Matches(st.text) && st.result == Recompute(st.text, st.from, st.to, fmt)
  }

  /** Runs the effect on a state whose text, or a scale, has just been set.
      The effect is a no-op exactly on consistent states, which is why a
      render that leaves the inputs as they were needs no new result. */
  function Settle(st: State, fmt: Formatter): (st': State)
    requires Matches(st.text)
    ensures Consistent(st', fmt)
    ensures st'.text == st.text && st'.from == st.from && st'.to == st.to
    ensures st' == st <==> Consistent(st, fmt)
  {
    st.(result := Recompute(st.text, st.from, st.to, fmt))
  }

  /** Typing into the field: the candidate is stored, and the result
      recomputed, only when it is empty or matches the filter; otherwise
      nothing changes at all. */
  function EditText(st: State, candidate: string, fmt: Formatter): (st': State)
    requires Matches(st.text)
    ensures st'.text == candidate <==> Accepts(candidate)
    ensures !Accepts(candidate) ==> st' == st
    ensures Accepts(candidate) ==> Consistent(st', fmt)
    ensures Consistent(st, fmt) ==> Consistent(st', fmt)
    ensures st'.from == st.from && st'.to == st.to
  {
    if candidate == "" || Matches(candidate) then Settle(st.(text := candidate), fmt) else st
  }

  /** Picking the source scale. */
  function SelectFrom(st: State, u: Unit, fmt: Formatter): (st': State)
    requires Matches(st.text)
    ensures st'.from == u && st'.text == st.text && st'.to == st.to
    ensures Consistent(st', fmt)
  {
    Settle(st.(from := u), fmt)
  }

  /** Picking the target scale. */
  function SelectTo(st: State, u: Unit, fmt: Formatter): (st': State)
    requires Matches(st.text)
    ensures st'.to == u && st'.text == st.text && st'.from == st.from
    ensures Consistent(st', fmt)
  {
    Settle(st.(to := u), fmt)
  }

  /** What the user can do to the form. */
  datatype Event = Edit(candidate: string) | PickFrom(source: Unit) | PickTo(target: Unit)

  function Step(st: State, e: Event, fmt: Formatter): (st': State)
    requires Matches(st.text)
    ensures Matches(st'.text)
    ensures Consistent(st, fmt) ==> Consistent(st', fmt)
  {
    match e
    case Edit(c) => EditText(st, c, fmt)
    case PickFrom(u) => SelectFrom(st, u, fmt)
    case PickTo(u) => SelectTo(st, u, fmt)
  }

  /** The state after a sequence of events from a fresh start: the initial
      state, settled by the effect's run at mount, then one step per event.
      Every text it holds has at most one point, a minus sign only at index
      0, and digits everywhere else. */
  function Run(events: seq<Event>, fmt: Formatter): (st: State)
    ensures Matches(st.text)
    ensures WellFormed(st.text)
  {
    MatchesIffWellFormed(Init().text);
    if |events| == 0 then Settle(Init(), fmt)
    else
      var st := Step(Run(events[..|events| - 1], fmt), events[|events| - 1], fmt);
      MatchesIffWellFormed(st.text);
      st
  }

  /** The initial result line is what the effect computes for the initial
      text and scales, provided `toFixed(2)` renders 32 as `32.00`; so the
      run at mount leaves the initial state exactly as it was. */
  lemma InitConsistent(fmt: Formatter)
    requires fmt(32.0) == "32.00"
    ensures Consistent(Init(), fmt)
    ensures Settle(Init(), fmt) == Init()
    ensures Run([], fmt) == Init()
  {
    assert !HasDigit("");
    ResultLines();
  }

  /** After any sequence of events the displayed line matches the stored
      text and scales. */
  lemma {:induction false} RunConsistent(events: seq<Event>, fmt: Formatter)
    ensures Consistent(Run(events, fmt), fmt)
  {
    if |events| > 0 {
      RunConsistent(events[..|events| - 1], fmt);
    }
  }

  /** Typing alone never changes the selected scales. */
  lemma {:induction false} EditsKeepScales(events: seq<Event>, fmt: Formatter)
    requires forall i :: 0 <= i < |events| ==> events[i].Edit?
    ensures Run(events, fmt).from == Celsius && Run(events, fmt).to == Fahrenheit
  {
    if |events| > 0 {
      EditsKeepScales(events[..|events| - 1], fmt);
    }
  }

  /** The result lines the examples below display, spelled out. */
  lemma ResultLines()
    ensures Line("0", Celsius, Fahrenheit, "32.00") == "0 °C = 32.00 °F"
    ensures Line("100", Celsius, Fahrenheit, "212.00") == "100 °C = 212.00 °F"
    ensures Line("-40", Celsius, Kelvin, "233.15") == "-40 °C = 233.15 K"
  {
  }

  /** Typing `100` with Celsius to Fahrenheit selected. */
  lemma HundredCelsius(fmt: Formatter)
    requires fmt(212.0) == "212.00"
    ensures Matches("100")
    ensures Recompute("100", Celsius, Fahrenheit, fmt) == "100 °C = 212.00 °F"
  {
    assert Matches("100") && HasDigit("100") && Parse("100") == Some(100.0) by {
      WholeExample();
      assert IsDigit("100"[0]);
    }
    var right := fmt(Convert(100.0, Celsius, Fahrenheit));
    assert right == "212.00" by {
      PairFormulas(100.0);
    }
    assert Recompute("100", Celsius, Fahrenheit, fmt) == Line("100", Celsius, Fahrenheit, right);
    ResultLines();
  }

  /** Typing `-40` with Celsius to Kelvin selected. */
  lemma MinusFortyCelsius(fmt: Formatter)
    requires fmt(233.15) == "233.15"
    ensures Matches("-40")
    ensures Recompute("-40", Celsius, Kelvin, fmt) == "-40 °C = 233.15 K"
  {
    assert Matches("-40") && HasDigit("-40") && Parse("-40") == Some(-40.0) by {
      NegativeExample();
      assert IsDigit("-40"[1]);
    }
    var right := fmt(Convert(-40.0, Celsius, Kelvin));
    assert right == "233.15" by {
      PairFormulas(-40.0);
    }
    assert Recompute("-40", Celsius, Kelvin, fmt) == Line("-40", Celsius, Kelvin, right);
    ResultLines();
  }

  /** A lone minus sign does not parse, so the line shows `0`, not `-`. */
  lemma LoneMinusShowsZero(fmt: Formatter)
    requires fmt(32.0) == "32.00"
    ensures Matches("-")
    ensures Recompute("-", Celsius, Fahrenheit, fmt) == "0 °C = 32.00 °F"
  {
    assert !HasDigit("-");
    ResultLines();
  }

  /** Typing a second point is refused: text and line stay as they were. */
  lemma SecondPointRefused(fmt: Formatter)
    ensures Matches("3.5")
    ensures EditText(State("3.5", Celsius, Fahrenheit, "3.5 °C = 38.30 °F"), "3.5.", fmt)
         == State("3.5", Celsius, Fahrenheit, "3.5 °C = 38.30 °F")
  {
    assert "3.5."[1..] == ".5." && ".5."[1..] == "5.";
    assert !IsDigit("5."[1]);
  }

  /** Typing `1`, `0`, `0` from a fresh start shows `100 °C = 212.00 °F`. */
  lemma TypingHundred(fmt: Formatter)
    requires fmt(212.0) == "212.00"
    ensures Run([Edit("1"), Edit("10"), Edit("100")], fmt).result == "100 °C = 212.00 °F"
  {
    var evs := [Edit("1"), Edit("10"), Edit("100")];
    EditsKeepScales(evs[..2], fmt);
    HundredCelsius(fmt);
    assert Run(evs, fmt) == EditText(Run(evs[..2], fmt), "100", fmt);
  }
}
