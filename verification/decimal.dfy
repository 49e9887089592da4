/**
 * Decimal rendering of naturals and the `-` join that `Array.prototype.join('-')`
 * performs on an array of non-negative integers, together with the inverse
 * (split on `-`, parse each piece) that shows the join loses no information.
 */
module Decimal {
  import opened Optional

  predicate IsDigit(c: char) {
    '0' <= c <= '9'
  }

  predicate IsDigits(s: string) {
    forall i | 0 <= i < |s| :: IsDigit(s[i])
  }

  function DigitChar(d: nat): (c: char)
    requires d < 10
    ensures IsDigit(c)
  {
    ('0' as int + d) as char
  }

  function DigitValue(c: char): (d: nat)
    requires IsDigit(c)
    ensures d < 10
  {
    c as int - '0' as int
  }

  /** The decimal text of `n` with no leading zeros, as Number's toString gives it. */
  function Render(n: nat): (s: string)
    ensures 1 <= |s| && IsDigits(s)
    ensures 1 < |s| ==> s[0] != '0'
  {
    if n < 10 then [DigitChar(n)] else Render(n / 10) + [DigitChar(n % 10)]
  }

  /** Reads a digit string as a decimal natural, most-significant digit first. */
  function Parse(s: string): (n: nat)
    requires IsDigits(s)
  {
    if |s| == 0 then 0 else 10 * Parse(s[..|s| - 1]) + DigitValue(s[|s| - 1])
  }

  lemma {:induction false} ParseRender(n: nat)
    ensures Parse(Render(n)) == n
    decreases n
  {
    if n >= 10 {
      var s := Render(n);
      assert s[..|s| - 1] == Render(n / 10);
      ParseRender(n / 10);
    }
  }

  /** Rendering is injective: distinct naturals have distinct decimal texts. */
  lemma RenderInjective(a: nat, b: nat)
    ensures Render(a) == Render(b) <==> a == b
  {
    if Render(a) == Render(b) {
      ParseRender(a);
      ParseRender(b);
    }
  }

  /** `fields.join('-')` for non-negative integer fields; the empty array joins to "". */
  function Join(fields: seq<nat>): (s: string)
    ensures |fields| == 0 <==> |s| == 0
  {
    if |fields| == 0 then ""
    else if |fields| == 1 then Render(fields[0])
    else Render(fields[0]) + "-" + Join(fields[1..])
  }

  /** Position of the first `-` in `s`, or `|s|` when there is none. */
  function IndexOfDash(s: string): (i: nat)
    ensures i <= |s|
    ensures forall j | 0 <= j < i :: s[j] != '-'
    ensures i < |s| ==> s[i] == '-'
  {
    if |s| == 0 || s[0] == '-' then 0 else 1 + IndexOfDash(s[1..])
  }

  /** The pieces of `s` between `-` separators; there is always at least one. */
  function Split(s: string): (parts: seq<string>)
    ensures 1 <= |parts|
    ensures forall k | 0 <= k < |parts| :: '-' !in parts[k]
    decreases |s|
  {
    var i := IndexOfDash(s);
    if i == |s| then [s] else [s[..i]] + Split(s[i + 1..])
  }

  /** Parses every piece as a non-empty digit string; `None` if any piece is not one. */
  function ParseFields(parts: seq<string>): (r: Option<seq<nat>>)
    ensures r.Some? ==> |r.value| == |parts|
  {
    if |parts| == 0 then Some([])
    else if |parts[0]| == 0 || !IsDigits(parts[0]) then None
    else
      match ParseFields(parts[1..])
      case None => None
      case Some(rest) => Some([Parse(parts[0])] + rest)
  }

  /** Reads back the fields of a `-`-joined string of decimals. */
  function Decode(s: string): Option<seq<nat>> {
    ParseFields(Split(s))
  }

  lemma FirstDashAfterDigits(x: string, y: string)
    requires IsDigits(x)
    ensures IndexOfDash(x + "-" + y) == |x|
    ensures IndexOfDash(x) == |x|
  {
    var s := x + "-" + y;
    assert s[|x|] == '-';
    assert forall j | 0 <= j < |x| :: s[j] == x[j] && s[j] != '-';
  }

  /** A field rendered in front of a `-` splits off as the first piece. */
  lemma SplitAfterDigits(x: string, y: string)
    requires IsDigits(x)
    ensures Split(x + "-" + y) == [x] + Split(y)
  {
    var s := x + "-" + y;
    FirstDashAfterDigits(x, y);
    assert s[..|x|] == x;
    assert s[|x| + 1..] == y;
  }

  /** Splitting a join gives back the rendered fields. */
  lemma {:induction false} SplitJoin(fields: seq<nat>)
    requires 1 <= |fields|
    ensures Split(Join(fields)) == seq(|fields|, k requires 0 <= k < |fields| => Render(fields[k]))
    decreases |fields|
  {
    var head := Render(fields[0]);
    if |fields| == 1 {
      FirstDashAfterDigits(head, "");
    } else {
      var tail := Join(fields[1..]);
      SplitAfterDigits(head, tail);
      SplitJoin(fields[1..]);
    }
  }

  lemma {:induction false} ParseRendered(fields: seq<nat>)
    ensures ParseFields(seq(|fields|, k requires 0 <= k < |fields| => Render(fields[k]))) == Some(fields)
    decreases |fields|
  {
    var parts := seq(|fields|, k requires 0 <= k < |fields| => Render(fields[k]));
    if |fields| > 0 {
      ParseRender(fields[0]);
      assert parts[1..] == seq(|fields[1..]|, k requires 0 <= k < |fields[1..]| => Render(fields[1..][k]));
      ParseRendered(fields[1..]);
      assert [fields[0]] + fields[1..] == fields;
    }
  }

  /** Round trip: a non-empty join decodes to exactly the fields joined. */
  lemma DecodeJoin(fields: seq<nat>)
    requires 1 <= |fields|
    ensures Decode(Join(fields)) == Some(fields)
  {
    SplitJoin(fields);
    ParseRendered(fields);
  }

  /** Joining non-negative decimals with `-` is injective. */
  lemma JoinInjective(a: seq<nat>, b: seq<nat>)
    ensures Join(a) == Join(b) <==> a == b
  {
    if Join(a) == Join(b) && |a| > 0 && |b| > 0 {
      DecodeJoin(a);
      DecodeJoin(b);
    }
  }
}
