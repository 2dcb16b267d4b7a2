/** The parsed schema document, as the loaders see it through ElementTree:
    elements with a tag, an optional text, attributes and children; and
    Python's `int()` applied to an element's text. */
module Xml {
  import opened Wrappers

  datatype Element = Element(tag: string, text: Option<string>, attrib: map<string, string>, children: seq<Element>)

  /** `element.find(tag)`: the first child carrying `tag`. */
  function Find(children: seq<Element>, tag: string): (r: Option<Element>)
    ensures r.Some? <==> exists i :: 0 <= i < |children| && children[i].tag == tag
    ensures r.Some? ==> exists i :: 0 <= i < |children| && children[i] == r.value && r.value.tag == tag
                                    && forall j :: 0 <= j < i ==> children[j].tag != tag
  {
    if children == [] then None
    else if children[0].tag == tag then Some(children[0])
    else
      var r := Find(children[1..], tag);
      assert forall i :: 1 <= i < |children| ==> children[i] == children[1..][i - 1];
      r
  }

  /** A name that starts with the reserved marker `_`. */
  predicate IsMeta(name: string) {
    |name| > 0 && name[0] == '_'
  }

  predicate IsDigit(c: char) {
    '0' <= c <= '9'
  }

  predicate AllDigits(s: string) {
    forall i :: 0 <= i < |s| ==> IsDigit(s[i])
  }

  /** The value of a string of decimal digits, most significant first. */
  function DigitsValue(s: string): nat
    requires AllDigits(s)
  {
    if s == [] then 0
    else DigitsValue(s[..|s| - 1]) * 10 + (s[|s| - 1] as int - '0' as int)
  }

  /** `int(text)`: an optional sign and at least one decimal digit. `int(None)`
      raises TypeError and malformed text raises ValueError; both are
      `NotAnInteger` here. */
  function IntOf(text: Option<string>): (r: Result<int>)
    ensures r.Err? ==> r.error == NotAnInteger(text)
  {
    if text.None? then Err(NotAnInteger(text))
    else
      var s := text.value;
      var signed := |s| > 0 && (s[0] == '-' || s[0] == '+');
      var digits := if signed then s[1..] else s;
      if digits == [] || !AllDigits(digits) then Err(NotAnInteger(text))
      else if signed && s[0] == '-' then Ok(0 - DigitsValue(digits) as int)
      else Ok(DigitsValue(digits))
  }

  /** The decimal digits of `n`, most significant first (what `str(n)` gives). */
  function DecimalDigits(n: nat): (s: string)
    ensures s != [] && AllDigits(s)
  {
    var d := ['0' + (n % 10) as char];
    if n < 10 then d else DecimalDigits(n / 10) + d
  }

  /** `str(i)`. */
  function DecimalString(i: int): string {
    if i < 0 then "-" + DecimalDigits(-i) else DecimalDigits(i)
  }

  lemma {:induction false} DigitsValueOfDecimalDigits(n: nat)
    ensures DigitsValue(DecimalDigits(n)) == n
  {
    var s := DecimalDigits(n);
    if n >= 10 {
      DigitsValueOfDecimalDigits(n / 10);
      assert s[..|s| - 1] == DecimalDigits(n / 10);
    }
  }

  /** `int(str(i)) == i`. */
  lemma IntOfDecimalString(i: int)
    ensures IntOf(Some(DecimalString(i))) == Ok(i)
  {
    if i < 0 {
      DigitsValueOfDecimalDigits(-i);
      assert DecimalString(i)[1..] == DecimalDigits(-i);
    } else {
      DigitsValueOfDecimalDigits(i);
    }
  }
}
