/** `CurrencyAdapter.normalize` of 4/3/index.js: a rate given as a
    "CUR:rate" or "CUR rate" string, a two-element array or an object with
    `currency`/`rate` or `code`/`value` fields becomes `{currency, rate}`;
    anything else, or a rate that is not a finite number, becomes null. */
module CurrencyAdapter {
  import opened Wrappers
  import opened Text
  import opened JsValues

  datatype Rate = Rate(currency: string, rate: real)

  /** `Number.isFinite(rate) ? { currency: cur, rate } : null`. */
  function FiniteRate(cur: string, rate: Option<real>): (r: Option<Rate>)
    ensures r.Some? <==> rate.Some?
    ensures r.Some? ==> r.value == Rate(cur, rate.value)
  {
    if rate.Some? then Some(Rate(cur, rate.value)) else None
  }

  /** `normalize(x)`. */
  function Normalize(x: JsValue, num: ToNumber, str: ToStr): (r: Option<Rate>)
    ensures !(x.Str? || x.Array? || x.Object?) ==> r.None?
    ensures x.Array? && |x.items| != 2 ==> r.None?
    ensures x.Array? && |x.items| == 2 ==> r == FiniteRate(str(x.items[0]), num(x.items[1]))
    ensures x.Object? && "currency" in x.fields && "rate" in x.fields ==>
      r == FiniteRate(str(x.fields["currency"]), num(x.fields["rate"]))
    ensures x.Object? && !("currency" in x.fields && "rate" in x.fields) && "code" in x.fields && "value" in x.fields ==>
      r == FiniteRate(str(x.fields["code"]), num(x.fields["value"]))
    ensures x.Object? && !("currency" in x.fields && "rate" in x.fields) && !("code" in x.fields && "value" in x.fields) ==>
      r.None?
  {
    match x
    case Str(s) => NormalizeText(s, num)
    case Array(items) =>
      if |items| == 2 then FiniteRate(str(items[0]), num(items[1])) else None
    case Object(f) =>
      if "currency" in f && "rate" in f then FiniteRate(str(f["currency"]), num(f["rate"]))
      else if "code" in f && "value" in f then FiniteRate(str(f["code"]), num(f["value"]))
      else None
    case _ => None
  }

  /** The string branch of `normalize`: trim, then try "CUR:rate", then
      "CUR rate". */
  function NormalizeText(s: string, num: ToNumber): Option<Rate>
  {
    var t := Trim(s);
    var colon := Split(t, ':');
    if |colon| == 2 then FiniteRate(Trim(colon[0]), num(Str(Trim(colon[1]))))
    else
      var space := SplitWs(t);
      if |space| == 2 then FiniteRate(Trim(space[0]), num(Str(Trim(space[1]))))
      else None
  }

  /** A trimmed string with exactly one colon: the currency is the trimmed text
      before it and the rate the number after it, whatever white space either
      side holds. */
  lemma ColonRule(s: string, a: string, b: string, num: ToNumber, str: ToStr)
    requires Trim(s) == a + ":" + b && ':' !in a && ':' !in b
    ensures Normalize(Str(s), num, str) == FiniteRate(Trim(a), num(Str(Trim(b))))
  {
    var t := Trim(s);
    SplitAtColon(t, a, b);
    assert Split(t, ':') == [a, b];
  }

  lemma SplitAtColon(t: string, a: string, b: string)
    requires t == a + ":" + b && ':' !in a && ':' !in b
    ensures Split(t, ':') == [a, b]
  {
    assert t[..|a|] == a && t[|a| + 1..] == b && t[|a|] == ':';
    SplitTwo(t, ':', |a|);
  }

  /** When the colon rule does not apply (any number of colons but one), two
      words around one run of white space give the pair; the words may hold
      colons themselves. */
  lemma SpaceRule(s: string, a: string, w: string, b: string, num: ToNumber, str: ToStr)
    requires Trim(s) == a + w + b && NoWs(a) && NoWs(b) && AllWs(w) && |w| > 0
    requires Count(a + w + b, ':') != 1
    ensures Normalize(Str(s), num, str) == FiniteRate(a, num(Str(b)))
  {
    SpaceText(s, a, w, b, num);
    assert Normalize(Str(s), num, str) == NormalizeText(s, num);
  }

  lemma SpaceText(s: string, a: string, w: string, b: string, num: ToNumber)
    requires Trim(s) == a + w + b && NoWs(a) && NoWs(b) && AllWs(w) && |w| > 0
    requires Count(a + w + b, ':') != 1
    ensures NormalizeText(s, num) == FiniteRate(a, num(Str(b)))
  {
    SplitSpec(Trim(s), ':');
    SplitWsTwo(a, w, b);
    TrimNoWs(a);
    TrimNoWs(b);
  }

  /** When the colon rule does not apply, anything but exactly two
      white-space-separated words is rejected: an empty string, one word, or
      three words and more. */
  lemma NotTwoWordsIsNull(s: string, num: ToNumber, str: ToStr)
    requires Count(Trim(s), ':') != 1 && |SplitWs(Trim(s))| != 2
    ensures Normalize(Str(s), num, str).None?
  {
    SplitSpec(Trim(s), ':');
  }

  /** Three words, as in "USD 1 2", are rejected when no single colon splits them. */
  lemma ThreeWordsIsNull(s: string, a: string, w1: string, b: string, w2: string, c: string, num: ToNumber, str: ToStr)
    requires Trim(s) == a + w1 + b + w2 + c && |b| > 0
    requires NoWs(a) && NoWs(b) && NoWs(c) && AllWs(w1) && AllWs(w2) && |w1| > 0 && |w2| > 0
    requires Count(Trim(s), ':') != 1
    ensures Normalize(Str(s), num, str).None?
  {
    SplitWsThree(a, w1, b, w2, c);
    NotTwoWordsIsNull(s, num, str);
  }

  /** Three words split into three pieces. */
  lemma SplitWsThree(a: string, w1: string, b: string, w2: string, c: string)
    requires |b| > 0 && NoWs(a) && NoWs(b) && NoWs(c) && AllWs(w1) && AllWs(w2) && |w1| > 0 && |w2| > 0
    ensures |SplitWs(a + w1 + b + w2 + c)| == 3
  {
    var t := a + w1 + b + w2 + c;
    SplitWsRuns(t);
    WsRunsTwo(a, w1, b, w2, c);
  }

  /** A single word with no colon and no inner white space is rejected. */
  lemma OneWordIsNull(s: string, num: ToNumber, str: ToStr)
    requires NoWs(Trim(s)) && ':' !in Trim(s)
    ensures Normalize(Str(s), num, str).None?
  {
    SplitNone(Trim(s), ':');
    SplitWsNone(Trim(s));
  }

  /** More than one colon in the trimmed string is not a pair either way when
      the string has no white space. */
  lemma ManyColonsNoSpaceIsNull(s: string, num: ToNumber, str: ToStr)
    requires NoWs(Trim(s)) && Count(Trim(s), ':') >= 2
    ensures Normalize(Str(s), num, str).None?
  {
    SplitSpec(Trim(s), ':');
    SplitWsNone(Trim(s));
  }

  /** When no value converts to a finite number, every input gives null. */
  lemma NonFiniteIsNull(x: JsValue, num: ToNumber, str: ToStr)
    requires forall v :: num(v).None?
    ensures Normalize(x, num, str).None?
  {
  }

  /** A successful result always carries a rate some input field converted to. */
  lemma RateComesFromInput(x: JsValue, num: ToNumber, str: ToStr)
    requires Normalize(x, num, str).Some?
    ensures exists v :: num(v) == Some(Normalize(x, num, str).value.rate)
  {
    match x
    case Str(s) =>
      var t := Trim(s);
      var colon := Split(t, ':');
      if |colon| == 2 {
        assert num(Str(Trim(colon[1]))) == Some(Normalize(x, num, str).value.rate);
      } else {
        var space := SplitWs(t);
        assert num(Str(Trim(space[1]))) == Some(Normalize(x, num, str).value.rate);
      }
    case Array(items) =>
      assert num(items[1]) == Some(Normalize(x, num, str).value.rate);
    case Object(f) =>
      if "currency" in f && "rate" in f {
        assert num(f["rate"]) == Some(Normalize(x, num, str).value.rate);
      } else {
        assert num(f["value"]) == Some(Normalize(x, num, str).value.rate);
      }
  }
}
