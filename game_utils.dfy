/** Pure helpers of the game: the guess time window, the score, the rank medal and
    the `m:ss` clock shown to players (backend/utils/gameUtils.js). */
module GameUtils {

  import opened Wrappers

  /** Default round length in milliseconds. */
  const DefaultTimeLimit: int := 90000

  /** Best possible score. */
  const MaxScore: int := 5000

  // ---------------------------------------------------------------------------
  // isGuessValid

  /** A guess made at `guessTime` counts when it arrives no later than
      `timeLimit` milliseconds after the round started. */
  function IsGuessValid(guessTime: int, roundStartTime: int, timeLimit: int := DefaultTimeLimit): (valid: bool)
    ensures valid <==> guessTime <= roundStartTime + timeLimit
  {
    guessTime - roundStartTime <= timeLimit
  }

  /** An earlier guess is valid whenever a later one is. */
  lemma GuessValidityIsMonotone(early: int, late: int, start: int, limit: int)
    requires early <= late
    requires IsGuessValid(late, start, limit)
    ensures IsGuessValid(early, start, limit)
  {
  }

  // ---------------------------------------------------------------------------
  // calculateScore

  /** JavaScript's Math.round: the nearest integer, halves rounded up. */
  function RoundHalfUp(x: real): (n: int)
    ensures x - 0.5 < n as real <= x + 0.5
  {
    (x + 0.5).Floor
  }

  /** `max(0, round(5000 - 10 * distance))`: the closer the guess, the higher the score. */
  function CalculateScore(distance: real): (score: int)
    ensures 0 <= score
    ensures distance >= 0.0 ==> score <= MaxScore
    ensures distance == 0.0 ==> score == MaxScore
    ensures score == 0 <==> distance > 499.95
  {
    var rounded := RoundHalfUp(MaxScore as real - distance * 10.0);
    if rounded < 0 then 0 else rounded
  }

  /** The score never grows with the distance. */
  lemma ScoreIsNonIncreasing(near: real, far: real)
    requires near <= far
    ensures CalculateScore(far) <= CalculateScore(near)
  {
    var a := MaxScore as real - far * 10.0;
    var b := MaxScore as real - near * 10.0;
    assert a <= b;
    assert RoundHalfUp(a) <= RoundHalfUp(b) by {
      assert RoundHalfUp(a) as real <= a + 0.5 <= b + 0.5 < RoundHalfUp(b) as real + 1.0;
    }
  }

  /** For a whole number of kilometres no rounding happens: ten points per kilometre. */
  lemma ScoreOfWholeDistance(km: nat)
    ensures CalculateScore(km as real) == if km <= 500 then MaxScore - 10 * km else 0
  {
    var x := MaxScore as real - (km as real) * 10.0;
    assert x == (MaxScore - 10 * km) as real;
    assert RoundHalfUp(x) == MaxScore - 10 * km;
  }

  // ---------------------------------------------------------------------------
  // getRankEmoji

  const GoldMedal: string := "\U{1F947}"
  const SilverMedal: string := "\U{1F948}"
  const BronzeMedal: string := "\U{1F949}"

  /** The medal shown beside the first three places; nothing for the others. */
  function GetRankEmoji(rank: int): (emoji: string)
    ensures emoji != "" <==> 1 <= rank <= 3
    ensures rank == 1 ==> emoji == GoldMedal
    ensures rank == 2 ==> emoji == SilverMedal
    ensures rank == 3 ==> emoji == BronzeMedal
  {
    if rank == 1 then GoldMedal
    else if rank == 2 then SilverMedal
    else if rank == 3 then BronzeMedal
    else ""
  }

  /** Different places on the podium never share a medal. */
  lemma MedalsAreDistinct(r1: int, r2: int)
    requires 1 <= r1 <= 3 && 1 <= r2 <= 3 && r1 != r2
    ensures GetRankEmoji(r1) != GetRankEmoji(r2)
  {
  }

  // ---------------------------------------------------------------------------
  // formatTime

  function DigitChar(d: nat): (c: char)
    requires d < 10
    ensures '0' <= c <= '9'
    ensures c == '0' <==> d == 0
  {
    ['0', '1', '2', '3', '4', '5', '6', '7', '8', '9'][d]
  }

  predicate IsDigit(c: char) { '0' <= c <= '9' }

  /** `n.toString()` for a natural number: its decimal digits, no leading zero. */
  function NatToString(n: nat): (s: string)
    ensures 1 <= |s|
    ensures forall i :: 0 <= i < |s| ==> IsDigit(s[i])
    ensures n < 10 <==> |s| == 1
    ensures n < 100 ==> |s| <= 2
    ensures |s| > 1 ==> s[0] != '0'
  {
    if n < 10 then [DigitChar(n)] else NatToString(n / 10) + [DigitChar(n % 10)]
  }

  /** `s.padStart(2, '0')`. */
  function PadStart2(s: string): (p: string)
    ensures |s| <= 2 ==> |p| == 2
    ensures |s| >= 2 ==> p == s
  {
    if |s| >= 2 then s else seq(2 - |s|, _ => '0') + s
  }

  /** A short string is padded on the left with zeros and otherwise kept. */
  lemma PadStart2Pads(s: string)
    requires |s| <= 2
    ensures PadStart2(s)[2 - |s|..] == s
    ensures forall i :: 0 <= i < 2 - |s| ==> PadStart2(s)[i] == '0'
  {
  }

  /** `${Math.floor(seconds / 60)}:${(seconds % 60).toString().padStart(2, '0')}`. */
  function FormatTime(seconds: nat): (text: string)
    ensures |text| >= 4 && text[|text| - 3] == ':'
    ensures forall i :: 0 <= i < |text| && i != |text| - 3 ==> IsDigit(text[i])
  {
    NatToString(seconds / 60) + ":" + PadStart2(NatToString(seconds % 60))
  }

  /** Reads a non-empty string of decimal digits. */
  function ParseNat(s: string): (n: Option<nat>)
    ensures n.Some? <==> |s| >= 1 && forall i :: 0 <= i < |s| ==> IsDigit(s[i])
  {
    if |s| == 0 || !IsDigit(s[|s| - 1]) then None
    else if |s| == 1 then Some((s[0] as int - '0' as int) as nat)
    else match ParseNat(s[..|s| - 1])
      case None => None
      case Some(m) => Some(m * 10 + (s[|s| - 1] as int - '0' as int))
  }

  /** Reads back an `m:ss` clock: minutes, a colon, and two digits below 60. */
  function ParseTime(text: string): (seconds: Option<nat>)
    ensures seconds.Some? ==> |text| >= 4 && text[|text| - 3] == ':'
  {
    if |text| < 4 || text[|text| - 3] != ':' then None
    else match (ParseNat(text[..|text| - 3]), ParseNat(text[|text| - 2..]))
      case (Some(m), Some(s)) => if s < 60 then Some(m * 60 + s) else None
      case _ => None
  }

  lemma {:induction false} ParseNatToString(n: nat)
    ensures ParseNat(NatToString(n)) == Some(n)
  {
    var s := NatToString(n);
    if n >= 10 {
      ParseNatToString(n / 10);
      assert s[..|s| - 1] == NatToString(n / 10);
      assert s[|s| - 1] == DigitChar(n % 10);
    }
  }

  /** A two-digit seconds field reads back as the seconds it came from. */
  lemma ParsePaddedSeconds(secs: nat)
    requires secs < 60
    ensures ParseNat(PadStart2(NatToString(secs))) == Some(secs)
  {
    ParseNatToString(secs);
    if secs < 10 {
      var p := PadStart2(NatToString(secs));
      assert p == ['0', DigitChar(secs)];
      assert p[..1] == ['0'];
    }
  }

  /** The clock text determines the number of seconds: formatting is undone by parsing,
      and the seconds field is always below 60. */
  lemma FormatTimeRoundTrip(seconds: nat)
    ensures ParseTime(FormatTime(seconds)) == Some(seconds)
  {
    var mins := NatToString(seconds / 60);
    var secs := PadStart2(NatToString(seconds % 60));
    var text := FormatTime(seconds);
    ParseNatToString(seconds / 60);
    ParsePaddedSeconds(seconds % 60);
    assert |secs| == 2;
    assert text[..|text| - 3] == mins;
    assert text[|text| - 2..] == secs;
    assert ParseNat(text[..|text| - 3]) == Some(seconds / 60);
    assert ParseNat(text[|text| - 2..]) == Some(seconds % 60);
    assert (seconds / 60) * 60 + seconds % 60 == seconds;
  }

  /** Two different durations never show the same clock. */
  lemma FormatTimeInjective(a: nat, b: nat)
    requires FormatTime(a) == FormatTime(b)
    ensures a == b
  {
    FormatTimeRoundTrip(a);
    FormatTimeRoundTrip(b);
  }
}
