/**
 The labels of the history buttons: "Go to game start" for snapshot 0 and
 "Go to move #k" for snapshot k, where k is written in decimal as a JavaScript
 template string renders a non-negative integer.
 */
module MoveLabels {
  import opened GameState

  predicate IsDigit(c: char) {
    '0' <= c <= '9'
  }

  predicate AllDigits(s: string) {
    forall i :: 0 <= i < |s| ==> IsDigit(s[i])
  }

  function DigitChar(d: nat): (c: char)
    requires d < 10
    ensures IsDigit(c)
  {
    ('0' as int + d) as char
  }

  function DigitValue(c: char): (d: nat)
    requires IsDigit(c)
    ensures d < 10 && DigitChar(d) == c
  {
    (c as int - '0' as int) as nat
  }

  /** The decimal numeral of `n`: digits only, and no leading zero unless `n` is zero. */
  function Decimal(n: nat): (s: string)
    ensures 0 < |s|
    ensures AllDigits(s)
    ensures s[0] == '0' ==> n == 0
    decreases n
  {
    if n < 10 then [DigitChar(n)] else Decimal(n / 10) + [DigitChar(n % 10)]
  }

  /** The value of a numeral, most significant digit first. */
  function ParseDecimal(s: string): nat
    requires AllDigits(s)
    decreases |s|
  {
    if |s| == 0 then 0 else 10 * ParseDecimal(s[..|s| - 1]) + DigitValue(s[|s| - 1])
  }

  /** Reading back the numeral of `n` gives `n`. */
  lemma {:induction false} ParseDecimalInverts(n: nat)
    ensures ParseDecimal(Decimal(n)) == n
    decreases n
  {
    if n >= 10 {
      ParseDecimalInverts(n / 10);
      var s := Decimal(n);
      assert s[..|s| - 1] == Decimal(n / 10);
    }
  }

  /** Distinct numbers have distinct numerals. */
  lemma DecimalInjective(j: nat, k: nat)
    requires Decimal(j) == Decimal(k)
    ensures j == k
  {
    ParseDecimalInverts(j);
    ParseDecimalInverts(k);
  }

  /** A numeral with no leading zero is the decimal numeral of its value, so `Decimal` is the only such rendering. */
  lemma {:induction false} CanonicalNumeralIsDecimal(s: string)
    requires 0 < |s| && AllDigits(s) && s[0] != '0'
    ensures 0 < ParseDecimal(s) && s == Decimal(ParseDecimal(s))
    decreases |s|
  {
    var n := ParseDecimal(s);
    if |s| == 1 {
      assert s[..|s| - 1] == [];
      assert ParseDecimal(s[..|s| - 1]) == 0;
      assert n == DigitValue(s[0]);
    } else {
      var front := s[..|s| - 1];
      var d := DigitValue(s[|s| - 1]);
      assert front[0] == s[0];
      CanonicalNumeralIsDecimal(front);
      var m := ParseDecimal(front);
      assert n == 10 * m + d;
      assert n / 10 == m && n % 10 == d;
      assert s == front + [s[|s| - 1]];
    }
  }

  const StartLabel := "Go to game start"
  const MovePrefix := "Go to move #"

  /** The label of the history button for snapshot `move`. */
  function MoveLabel(move: nat): (desc: string)
    ensures move == 0 <==> desc == StartLabel
    ensures 0 < move ==> && |MovePrefix| < |desc|
                         && desc[..|MovePrefix|] == MovePrefix
                         && AllDigits(desc[|MovePrefix|..])
                         && desc[|MovePrefix|] != '0'
                         && ParseDecimal(desc[|MovePrefix|..]) == move
  {
    if move == 0 then
      StartLabel
    else
      var desc := MovePrefix + Decimal(move);
      assert desc[6] != StartLabel[6];
      assert desc[|MovePrefix|..] == Decimal(move);
      ParseDecimalInverts(move);
      desc
  }

  /** Different snapshots get different labels, so each button names one snapshot. */
  lemma MoveLabelInjective(j: nat, k: nat)
    requires MoveLabel(j) == MoveLabel(k)
    ensures j == k
  {
    if 0 < j && 0 < k {
      assert MoveLabel(j)[|MovePrefix|..] == Decimal(j);
      assert MoveLabel(k)[|MovePrefix|..] == Decimal(k);
      DecimalInjective(j, k);
    }
  }

  /**
   The label of a move is fully determined by the contract above: any string
   made of the prefix and a numeral without leading zero whose value is the
   move is that move's label.
   */
  lemma MoveLabelUnique(move: nat, desc: string)
    requires 0 < move && |MovePrefix| < |desc|
    requires desc[..|MovePrefix|] == MovePrefix
    requires AllDigits(desc[|MovePrefix|..]) && desc[|MovePrefix|] != '0'
    requires ParseDecimal(desc[|MovePrefix|..]) == move
    ensures desc == MoveLabel(move)
  {
    var digits := desc[|MovePrefix|..];
    assert digits[0] == desc[|MovePrefix|];
    CanonicalNumeralIsDecimal(digits);
    assert desc == desc[..|MovePrefix|] + digits;
  }

  /** The button labels of a game, one per snapshot, in history order. */
  function HistoryLabels(g: Game): (labels: seq<string>)
    ensures |labels| == |g.history|
    ensures forall k :: 0 <= k < |labels| ==> labels[k] == MoveLabel(k)
    ensures 0 < |labels| ==> labels[0] == StartLabel
    ensures forall j, k :: 0 <= j < k < |labels| ==> labels[j] != labels[k]
  {
    var labels := seq(|g.history|, k requires 0 <= k => MoveLabel(k));
    forall j, k | 0 <= j < k < |labels|
      ensures labels[j] != labels[k]
    {
      if labels[j] == labels[k] {
        MoveLabelInjective(j, k);
      }
    }
    labels
  }
}
