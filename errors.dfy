/** The exceptions of wbn/errors.py. */
module Errors {

  /** `WBNException`; its only subclass is `InstanceCountError`, which keeps
      the data and the target it was raised for. */
  datatype WbnException<D, T> = InstanceCountError(data: seq<D>, target: seq<T>)

  const InstancesText := "Number of instances: "
  const TargetsText := " does not match number of targets: "

  predicate IsDigit(c: char) {
    '0' <= c <= '9'
  }

  predicate AllDigits(s: string) {
    forall i :: 0 <= i < |s| ==> IsDigit(s[i])
  }

  /** The decimal rendering of `n`, as `str.format` writes an int. */
  function Decimal(n: nat): (s: string)
    ensures |s| > 0 && AllDigits(s)
  {
    var d := ('0' as int + n % 10) as char;
    if n < 10 then [d] else Decimal(n / 10) + [d]
  }

  /** The rendering has no leading zero: it starts with '0' only for 0. */
  lemma {:induction false} DecimalNoLeadingZero(n: nat)
    ensures Decimal(n)[0] == '0' <==> n == 0
  {
    if n >= 10 {
      DecimalNoLeadingZero(n / 10);
      assert Decimal(n)[0] == Decimal(n / 10)[0];
    }
  }

  /** The number a string of decimal digits denotes. */
  function DecimalValue(s: string): nat
    requires AllDigits(s)
  {
    if s == [] then 0
    else DecimalValue(s[..|s| - 1]) * 10 + (s[|s| - 1] as int - '0' as int)
  }

  /** Reading back the rendering gives the number again. */
  lemma {:induction false} DecimalRoundTrip(n: nat)
    ensures DecimalValue(Decimal(n)) == n
  {
    var s := Decimal(n);
    if n >= 10 {
      DecimalRoundTrip(n / 10);
      assert s[..|s| - 1] == Decimal(n / 10);
    } else {
      assert s[..|s| - 1] == [];
    }
  }

  /** `InstanceCountError.__str__`. */
  function Message<D, T>(e: WbnException<D, T>): string {
    InstancesText + (Decimal(|e.data|) + TargetsText + Decimal(|e.target|))
  }

  lemma DropCommonPrefix(p: string, x: string, y: string)
    requires p + x == p + y
    ensures x == y
  {
    assert x == (p + x)[|p|..];
  }

  /** Two digit strings joined by `TargetsText` can be split back apart. */
  lemma SplitAtTargetsText(a1: string, b1: string, a2: string, b2: string)
    requires AllDigits(a1) && AllDigits(a2)
    requires a1 + TargetsText + b1 == a2 + TargetsText + b2
    ensures a1 == a2 && b1 == b2
  {
    var m := a1 + TargetsText + b1;
    assert m[|a1|] == ' ' && m[|a2|] == ' ';
    assert |a1| == |a2|;
    assert a1 == m[..|a1|] && a2 == m[..|a2|];
    assert b1 == m[|a1| + |TargetsText|..] && b2 == m[|a2| + |TargetsText|..];
  }

  /** The message reports both counts: two errors have the same message
      exactly when they have the same number of instances and the same
      number of targets, whatever the elements are. */
  lemma MessageReportsCounts<D, T>(e1: WbnException<D, T>, e2: WbnException<D, T>)
    ensures Message(e1) == Message(e2) <==> |e1.data| == |e2.data| && |e1.target| == |e2.target|
  {
    if Message(e1) == Message(e2) {
      var a1, b1 := Decimal(|e1.data|), Decimal(|e1.target|);
      var a2, b2 := Decimal(|e2.data|), Decimal(|e2.target|);
      DropCommonPrefix(InstancesText, a1 + TargetsText + b1, a2 + TargetsText + b2);
      SplitAtTargetsText(a1, b1, a2, b2);
      DecimalRoundTrip(|e1.data|);
      DecimalRoundTrip(|e2.data|);
      DecimalRoundTrip(|e1.target|);
      DecimalRoundTrip(|e2.target|);
    }
  }

  /** Two instances against one target. */
  lemma MessageForTwoAndOne<D, T>(e: WbnException<D, T>)
    requires |e.data| == 2 && |e.target| == 1
    ensures Message(e) == "Number of instances: 2 does not match number of targets: 1"
  {
    assert Decimal(2) == "2" && Decimal(1) == "1";
    var expected := "Number of instances: 2 does not match number of targets: 1";
    ExpectedStartsWithInstancesText();
    ExpectedHasTargetsText();
    Reassemble(expected, InstancesText, TargetsText, '2', '1');
  }

  /** A string made of a prefix, one character, a middle part and one last
      character is their concatenation. */
  lemma Reassemble(s: string, p: string, m: string, x: char, y: char)
    requires |s| == |p| + |m| + 2
    requires s[..|p|] == p && s[|p|] == x && s[|p| + 1..|s| - 1] == m && s[|s| - 1] == y
    ensures s == p + ([x] + m + [y])
  {
    assert s == s[..|p|] + ([s[|p|]] + s[|p| + 1..|s| - 1] + [s[|s| - 1]]);
  }

  // The expected text, compared with the two fixed parts of the message.

  lemma ExpectedStartsWithInstancesText()
    ensures var expected := "Number of instances: 2 does not match number of targets: 1";
      |expected| == 58 && expected[21] == '2' && expected[57] == '1' && expected[..21] == InstancesText
  {
    var expected := "Number of instances: 2 does not match number of targets: 1";
    assert forall i :: 0 <= i < 21 ==> expected[i] == InstancesText[i];
  }

  lemma ExpectedHasTargetsText()
    ensures "Number of instances: 2 does not match number of targets: 1"[22..57] == TargetsText
  {
    var expected := "Number of instances: 2 does not match number of targets: 1";
    TargetsTextFront();
    TargetsTextBack();
    assert forall i :: 0 <= i < 35 ==> expected[22..57][i] == expected[22 + i];
  }

  lemma TargetsTextFront()
    ensures forall i :: 0 <= i < 17 ==>
      "Number of instances: 2 does not match number of targets: 1"[22 + i] == TargetsText[i]
  {
  }

  lemma TargetsTextBack()
    ensures forall i :: 17 <= i < 35 ==>
      "Number of instances: 2 does not match number of targets: 1"[22 + i] == TargetsText[i]
  {
  }
}
