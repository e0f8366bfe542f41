/** The additive strength heuristic and the three display bands of its score. */
module Strength {
  import opened CharClass

  /** What `/[a-z]/.test`, `/[A-Z]/.test`, `/\d/.test` and `/[^a-zA-Z0-9]/.test` report. */
  predicate HasLower(s: string) { exists i :: 0 <= i < |s| && IsAsciiLower(s[i]) }
  predicate HasUpper(s: string) { exists i :: 0 <= i < |s| && IsAsciiUpper(s[i]) }
  predicate HasDigit(s: string) { exists i :: 0 <= i < |s| && IsAsciiDigit(s[i]) }
  predicate HasSpecial(s: string) { exists i :: 0 <= i < |s| && IsSpecial(s[i]) }

  /** The points of each rule, added without the final cap. */
  function RawScore(s: string): nat {
      (if |s| >= 12 then 25 else 0)
    + (if |s| >= 16 then 25 else 0)
    + (if HasLower(s) && HasUpper(s) then 20 else 0)
    + (if HasDigit(s) then 15 else 0)
    + (if HasSpecial(s) then 15 else 0)
  }

  /** `calculateStrength`: the sum capped at 100; the cap never takes effect. */
  function Score(s: string): (r: nat)
    ensures r <= 100
    ensures r == RawScore(s)
  {
    var raw := RawScore(s);
    if raw < 100 then raw else 100
  }

  /** The same score computed by one pass over the characters, collecting
      the four class flags as the regular expressions would. */
  method CalculateStrength(pass: string) returns (score: nat)
    ensures score == Score(pass)
  {
    var lower, upper, digit, special := false, false, false, false;
    var i := 0;
    while i < |pass|
      invariant 0 <= i <= |pass|
      invariant lower <==> HasLower(pass[..i])
      invariant upper <==> HasUpper(pass[..i])
      invariant digit <==> HasDigit(pass[..i])
      invariant special <==> HasSpecial(pass[..i])
    {
      var c := pass[i];
      assert pass[..i + 1] == pass[..i] + [c];
      if IsAsciiLower(c) {
        lower := true;
      } else if IsAsciiUpper(c) {
        upper := true;
      } else if IsAsciiDigit(c) {
        digit := true;
      } else {
        special := true;
      }
      i := i + 1;
    }
    assert pass[..|pass|] == pass;
    score := 0;
    if |pass| >= 12 { score := score + 25; }
    if |pass| >= 16 { score := score + 25; }
    if lower && upper { score := score + 20; }
    if digit { score := score + 15; }
    if special { score := score + 15; }
  }

  /** Extending a password never lowers its score. */
  lemma {:induction false} ScoreMonotoneUnderAppend(s: string, t: string)
    ensures Score(s) <= Score(s + t)
  {
    var u := s + t;
    assert forall i :: 0 <= i < |s| ==> u[i] == s[i];
    if HasLower(s) {
      var i :| 0 <= i < |s| && IsAsciiLower(s[i]);
      assert IsAsciiLower(u[i]);
    }
    if HasUpper(s) {
      var i :| 0 <= i < |s| && IsAsciiUpper(s[i]);
      assert IsAsciiUpper(u[i]);
    }
    if HasDigit(s) {
      var i :| 0 <= i < |s| && IsAsciiDigit(s[i]);
      assert IsAsciiDigit(u[i]);
    }
    if HasSpecial(s) {
      var i :| 0 <= i < |s| && IsSpecial(s[i]);
      assert IsSpecial(u[i]);
    }
  }

  /** The worked examples of the heuristic. */
  lemma ScoreExamples()
    ensures Score("") == 0
    ensures Score("aaaaaaaaaaaa") == 25
    ensures Score("Aaaaaaaaaaaaaaaa") == 70
    ensures Score("Aa1!Aa1!Aa1!") == 75
    ensures StrengthLabel(Score("Aaaaaaaaaaaaaaaa")) == "Надёжный"
  {
    var mixed := "Aaaaaaaaaaaaaaaa";
    assert IsAsciiUpper(mixed[0]) && IsAsciiLower(mixed[1]);
    var all := "Aa1!Aa1!Aa1!";
    assert IsAsciiUpper(all[0]) && IsAsciiLower(all[1]) && IsAsciiDigit(all[2]) && IsSpecial(all[3]);
  }

  /** The three bands of the score. */
  datatype Band = Weak | Medium | Strong {
    function Rank(): nat {
      match this
      case Weak => 0
      case Medium => 1
      case Strong => 2
    }
  }

  /** The band whose interval contains `strength`: [..40), [40..70), [70..]. */
  function BandOf(strength: int): (b: Band)
    ensures b == Weak <==> strength < 40
    ensures b == Medium <==> 40 <= strength < 70
    ensures b == Strong <==> 70 <= strength
  {
    if strength < 40 then Weak else if strength < 70 then Medium else Strong
  }

  /** `getStrengthLabel`. */
  function StrengthLabel(strength: int): (r: string)
    ensures r == "Слабый" <==> strength < 40
    ensures r == "Средний" <==> 40 <= strength < 70
    ensures r == "Надёжный" <==> 70 <= strength
  {
    if strength < 40 then "Слабый"
    else if strength < 70 then "Средний"
    else "Надёжный"
  }

  /** `getStrengthColor`, the colour of the strength bar. */
  function StrengthColor(strength: int): (r: string)
    ensures r == "bg-red-500" <==> strength < 40
    ensures r == "bg-yellow-500" <==> 40 <= strength < 70
    ensures r == "bg-green-500" <==> 70 <= strength
  {
    if strength < 40 then "bg-red-500"
    else if strength < 70 then "bg-yellow-500"
    else "bg-green-500"
  }

  /** The colour of the label text, chosen inline in the markup. */
  function StrengthTextColor(strength: int): (r: string)
    ensures r == "text-red-500" <==> strength < 40
    ensures r == "text-yellow-500" <==> 40 <= strength < 70
    ensures r == "text-green-500" <==> 70 <= strength
  {
    if strength < 40 then "text-red-500"
    else if strength < 70 then "text-yellow-500"
    else "text-green-500"
  }

  function LabelOf(b: Band): string {
    match b
    case Weak => "Слабый"
    case Medium => "Средний"
    case Strong => "Надёжный"
  }

  function ColorOf(b: Band): string {
    match b
    case Weak => "bg-red-500"
    case Medium => "bg-yellow-500"
    case Strong => "bg-green-500"
  }

  function TextColorOf(b: Band): string {
    match b
    case Weak => "text-red-500"
    case Medium => "text-yellow-500"
    case Strong => "text-green-500"
  }

  /** Label, bar colour and text colour partition the score range identically. */
  lemma BandsAgree(strength: int)
    ensures StrengthLabel(strength) == LabelOf(BandOf(strength))
    ensures StrengthColor(strength) == ColorOf(BandOf(strength))
    ensures StrengthTextColor(strength) == TextColorOf(BandOf(strength))
  {
  }

  /** A higher score never falls into a lower band. */
  lemma BandMonotone(a: int, b: int)
    requires a <= b
    ensures BandOf(a).Rank() <= BandOf(b).Rank()
  {
  }

  /** Any password of at least 16 characters scores at least Medium. */
  lemma LongPasswordAtLeastMedium(s: string)
    requires |s| >= 16
    ensures BandOf(Score(s)) != Weak
  {
  }
}
