/** The display helpers of src/main.rs: `truncate`, and `humanize_bytes`
    and `time_human` with the readings that invert their output. */
module Display {
  import opened Wrappers
  import opened Numerals
  import Arith

  // ---------------------------------------------------------------------------
  // truncate

  function Min(a: nat, b: nat): nat {
    if a <= b then a else b
  }

  /** `truncate(s, max)`: a text no wider than `max` characters plus an
      ellipsis, which keeps the first `max` characters of `s`. */
  function Truncate(s: string, max: nat): (r: string)
    ensures |r| <= max + 3
    ensures max == 0 ==> r == "..."
    ensures 0 < max && |s| <= max ==> r == s
    ensures 0 < max && max < |s| ==> |r| == max + 3 && r[max..] == "..."
    ensures r[..Min(|s|, max)] == s[..Min(|s|, max)]
  {
    if max == 0 then "..."
    else if |s| > max then s[..max] + "..."
    else s
  }

  /** Truncating an already truncated text changes nothing. */
  lemma TruncateIdempotent(s: string, max: nat)
    ensures Truncate(Truncate(s, max), max) == Truncate(s, max)
  {
    if 0 < max < |s| {
      assert Truncate(s, max)[..max] == s[..max];
    }
  }

  /** The example of the doc comment of `truncate`. */
  lemma TruncateExample()
    ensures Truncate("Hello, world!", 5) == "Hello..."
  {
  }

  // ---------------------------------------------------------------------------
  // humanize_bytes

  function Pow1024(k: nat): (p: nat)
    ensures p >= 1
  {
    if k == 0 then 1 else 1024 * Pow1024(k - 1)
  }

  /** How many of the four 1024-thresholds `b` passes: the index of its unit. */
  function Exponent(b: nat): (k: nat)
    ensures k <= 4
    ensures k == 0 || Pow1024(k) <= b
    ensures k < 4 ==> b < Pow1024(k + 1)
  {
    if b < 1024 then 0
    else if b < 1048576 then 1
    else if b < 1073741824 then 2
    else if b < 1099511627776 then 3
    else 4
  }

  function UnitName(k: nat): string
    requires k <= 4
  {
    ["B", "KiB", "MiB", "GiB", "TiB"][k]
  }

  /** The number printed in front of the unit: `b / 1024^k`, rounded down. */
  function Scaled(b: nat): (v: nat)
    ensures v * Pow1024(Exponent(b)) <= b < (v + 1) * Pow1024(Exponent(b))
    ensures Exponent(b) < 4 ==> v < 1024
    ensures Exponent(b) > 0 ==> v >= 1
  {
    QuotientBounds(b, Exponent(b));
    b / Pow1024(Exponent(b))
  }

  lemma QuotientBounds(b: nat, k: nat)
    requires k <= 4 && (k == 0 || Pow1024(k) <= b) && (k < 4 ==> b < Pow1024(k + 1))
    ensures b / Pow1024(k) * Pow1024(k) <= b < (b / Pow1024(k) + 1) * Pow1024(k)
    ensures k < 4 ==> b / Pow1024(k) < 1024
    ensures k > 0 ==> b / Pow1024(k) >= 1
  {
    var p := Pow1024(k);
    if k < 4 {
      Arith.DivBelow(b, p, 1024);
    }
    if k > 0 {
      Arith.DivAtLeast(b, p, 1);
    }
  }

  function HumanText(b: nat): string {
    Decimal(Scaled(b)) + " " + UnitName(Exponent(b))
  }

  /** `humanize_bytes`: divide by 1024 once per threshold passed, at most four
      times, and name the unit by that count. */
  method HumanizeBytes(bytes: nat) returns (text: string)
    ensures text == HumanText(bytes)
  {
    var b := bytes;
    ghost var k := 0;
    var unit: string;
    NextUnit(bytes, 0);
    if b >= 1024 {
      b := b / 1024;
      k := 1;
      unit := "KiB";
    } else {
      unit := "B";
    }
    assert UnitsSoFar(bytes, b, k, unit, 1);
    NextUnit(bytes, k);
    if b >= 1024 {
      b := b / 1024;
      k := k + 1;
      unit := "MiB";
    }
    assert UnitsSoFar(bytes, b, k, unit, 2);
    NextUnit(bytes, k);
    if b >= 1024 {
      b := b / 1024;
      k := k + 1;
      unit := "GiB";
    }
    assert UnitsSoFar(bytes, b, k, unit, 3);
    NextUnit(bytes, k);
    if b >= 1024 {
      b := b / 1024;
      k := k + 1;
      unit := "TiB";
    }
    assert UnitsSoFar(bytes, b, k, unit, 4);
    ExponentUnique(bytes, k);
    text := Decimal(b) + " " + unit;
  }

  /** After `j` of the four threshold tests: `b` is `bytes / 1024^k` with
      unit `k`, and `k` stops short of `j` only when `bytes` is below the
      next threshold. */
  ghost predicate UnitsSoFar(bytes: nat, b: nat, k: nat, unit: string, j: nat) {
    k <= j && k <= 4 && b == bytes / Pow1024(k) && unit == UnitName(k)
    && (k == 0 || Pow1024(k) <= bytes) && (k < j ==> bytes < Pow1024(k + 1))
  }

  /** One more division by 1024 happens exactly when `bytes` reaches the next
      power, and it gives the quotient by that power. */
  lemma NextUnit(bytes: nat, k: nat)
    ensures bytes / Pow1024(k) >= 1024 <==> bytes >= Pow1024(k + 1)
    ensures bytes / Pow1024(k) / 1024 == bytes / Pow1024(k + 1)
  {
    var p := Pow1024(k);
    assert Pow1024(k + 1) == p * 1024;
    Arith.DivDiv(bytes, p, 1024);
    if bytes >= p * 1024 {
      Arith.DivAtLeast(bytes, p, 1024);
    } else {
      Arith.DivBelow(bytes, p, 1024);
    }
  }

  lemma ExponentUnique(b: nat, k: nat)
    requires k <= 4 && (k == 0 || Pow1024(k) <= b) && (k < 4 ==> b < Pow1024(k + 1))
    ensures k == Exponent(b) && Scaled(b) == b / Pow1024(k)
  {
  }

  function UnitIndex(name: string): (k: Option<nat>)
    ensures k.Some? ==> k.value <= 4 && UnitName(k.value) == name
  {
    if name == "B" then Some(0)
    else if name == "KiB" then Some(1)
    else if name == "MiB" then Some(2)
    else if name == "GiB" then Some(3)
    else if name == "TiB" then Some(4)
    else None
  }

  /** Reads a `humanize_bytes` text back into its number and unit index. */
  function ParseHuman(s: string): Option<(nat, nat)> {
    var k := DigitSpan(s);
    if k == 0 || k == |s| || s[k] != ' ' then None
    else
      match UnitIndex(s[k + 1..])
      case None => None
      case Some(u) => Some((Value(s[..k]), u))
  }

  /** The printed number and unit determine `b / 1024^k` and `k`. */
  lemma HumanTextRoundTrip(b: nat)
    ensures ParseHuman(HumanText(b)) == Some((Scaled(b), Exponent(b)))
  {
    var k := Exponent(b);
    assert HumanText(b) == Decimal(Scaled(b)) + [' '] + UnitName(k);
    DecimalThen(Scaled(b), ' ', UnitName(k));
    UnitIndexOfName(k);
  }

  lemma UnitIndexOfName(k: nat)
    requires k <= 4
    ensures UnitIndex(UnitName(k)) == Some(k)
  {
    if k == 0 {
      assert UnitName(k) == "B";
    } else if k == 1 {
      assert UnitName(k) == "KiB";
    } else if k == 2 {
      assert UnitName(k) == "MiB";
    } else if k == 3 {
      assert UnitName(k) == "GiB";
    } else {
      assert UnitName(k) == "TiB";
    }
  }

  /** The example of the doc comment of `humanize_bytes`. */
  lemma HumanizeExample()
    ensures HumanText(1024) == "1 KiB"
  {
    assert Exponent(1024) == 1;
    assert Scaled(1024) == 1;
  }

  // ---------------------------------------------------------------------------
  // time_human

  /** One component of a `time_human` text: nothing when zero. */
  function Part(n: nat, unit: char): string {
    if n == 0 then "" else Decimal(n) + [unit]
  }

  /** The text `time_human(t)` builds, with the hour count taken modulo 60 as
      the code computes it. */
  function TimeText(t: nat): string {
    if t < 1000 then Decimal(t) + "ms"
    else
      var secs := t / 1000;
      var mins := secs / 60;
      var hours := mins / 60;
      Part(hours % 60, 'h') + Part(mins % 60, 'm') + Part(secs % 60, 's')
  }

  /** `time_human`: milliseconds below one second, otherwise the nonzero
      hour, minute and second components in that order. */
  method TimeHuman(t: nat) returns (text: string)
    ensures text == TimeText(t)
  {
    if t < 1000 {
      text := Decimal(t) + "ms";
    } else {
      var rest := t / 1000;
      var s := rest % 60;
      rest := rest / 60;
      var m := rest % 60;
      rest := rest / 60;
      var h := rest % 60;
      text := "";
      if h != 0 {
        text := text + Decimal(h) + "h";
      }
      assert text == Part(h, 'h');
      if m != 0 {
        text := text + Decimal(m) + "m";
      }
      assert text == Part(h, 'h') + Part(m, 'm');
      if s != 0 {
        text := text + Decimal(s) + "s";
      }
      assert text == Part(h, 'h') + Part(m, 'm') + Part(s, 's');
    }
  }

  function AddTo(a: nat, r: Option<nat>): Option<nat> {
    match r
    case None => None
    case Some(v) => Some(a + v)
  }

  /** Reads a `time_human` text back into milliseconds: numbers followed by
      `ms`, `h`, `m` or `s`; the empty text reads as zero. */
  function ParseTime(s: string): Option<nat>
    decreases |s|
  {
    if s == [] then Some(0)
    else
      var k := DigitSpan(s);
      if k == 0 || k == |s| then None
      else
        var n := Value(s[..k]);
        if k + 1 < |s| && s[k] == 'm' && s[k + 1] == 's' then AddTo(n, ParseTime(s[k + 2..]))
        else if s[k] == 'h' then AddTo(n * 3600000, ParseTime(s[k + 1..]))
        else if s[k] == 'm' then AddTo(n * 60000, ParseTime(s[k + 1..]))
        else if s[k] == 's' then AddTo(n * 1000, ParseTime(s[k + 1..]))
        else None
  }

  function Scale(unit: char): nat {
    if unit == 'h' then 3600000 else if unit == 'm' then 60000 else 1000
  }

  predicate StartsClean(rest: string) {
    rest == [] || IsDigit(rest[0])
  }

  /** One nonzero component followed by a digit or nothing is read as its
      count times the length of its unit. */
  lemma ParsePart(n: nat, unit: char, rest: string)
    requires unit == 'h' || unit == 'm' || unit == 's'
    requires StartsClean(rest)
    ensures ParseTime(Part(n, unit) + rest) == AddTo(n * Scale(unit), ParseTime(rest))
    ensures StartsClean(Part(n, unit) + rest)
  {
    if n != 0 {
      assert Part(n, unit) + rest == Decimal(n) + [unit] + rest;
      DecimalThen(n, unit, rest);
    } else {
      assert Part(n, unit) + rest == rest;
    }
  }

  /** Seconds split into hour (mod 60), minute and second components sum
      back to the seconds modulo sixty hours. */
  lemma ClockSplit(secs: nat)
    ensures secs / 60 / 60 % 60 * 3600 + secs / 60 % 60 * 60 + secs % 60 == secs % 216000
  {
    var mins := secs / 60;
    var hours := mins / 60;
    assert secs == 60 * mins + secs % 60;
    assert mins == 60 * hours + mins % 60;
    assert hours == 60 * (hours / 60) + hours % 60;
    var r := hours % 60 * 3600 + mins % 60 * 60 + secs % 60;
    assert secs == 216000 * (hours / 60) + r;
    Arith.DivUnique(secs, 216000, hours / 60, r);
  }

  lemma ParseSeconds(sec: nat)
    ensures ParseTime(Part(sec, 's')) == Some(sec * 1000)
    ensures StartsClean(Part(sec, 's'))
  {
    ParsePart(sec, 's', []);
    assert Part(sec, 's') + [] == Part(sec, 's');
  }

  lemma ParseMinutesSeconds(m: nat, sec: nat)
    ensures ParseTime(Part(m, 'm') + Part(sec, 's')) == Some(m * 60000 + sec * 1000)
    ensures StartsClean(Part(m, 'm') + Part(sec, 's'))
  {
    ParseSeconds(sec);
    ParsePart(m, 'm', Part(sec, 's'));
  }

  /** A text of hour, minute and second components reads back as their sum
      in milliseconds. */
  lemma ParseClock(h: nat, m: nat, sec: nat)
    ensures ParseTime(Part(h, 'h') + Part(m, 'm') + Part(sec, 's'))
         == Some(h * 3600000 + m * 60000 + sec * 1000)
  {
    var rest := Part(m, 'm') + Part(sec, 's');
    ParseMinutesSeconds(m, sec);
    ParsePart(h, 'h', rest);
    Assoc(Part(h, 'h'), Part(m, 'm'), Part(sec, 's'));
  }

  lemma Assoc(a: string, b: string, c: string)
    ensures a + b + c == a + (b + c)
  {
  }

  /** A count below one second reads back from its `ms` text. */
  lemma ParseMillis(t: nat)
    ensures ParseTime(Decimal(t) + "ms") == Some(t)
  {
    assert Decimal(t) + "ms" == Decimal(t) + ['m'] + ['s'];
    DecimalThen(t, 'm', ['s']);
  }

  /** Reading back a `time_human` text gives the milliseconds below one
      second, and otherwise the whole seconds modulo sixty hours. */
  lemma TimeTextRoundTrip(t: nat)
    ensures ParseTime(TimeText(t)) == Some(if t < 1000 then t else t / 1000 % 216000 * 1000)
  {
    if t < 1000 {
      ParseMillis(t);
    } else {
      var secs := t / 1000;
      var h, m, sec := secs / 60 / 60 % 60, secs / 60 % 60, secs % 60;
      var text := Part(h, 'h') + Part(m, 'm') + Part(sec, 's');
      assert TimeText(t) == text;
      ParseClock(h, m, sec);
      ClockSplit(secs);
      assert h * 3600000 + m * 60000 + sec * 1000 == (h * 3600 + m * 60 + sec) * 1000;
    }
  }

  /** Sixty hours exactly print as the empty text. */
  lemma TimeTextSixtyHours()
    ensures TimeText(216000000) == ""
  {
    assert 216000000 / 1000 == 216000;
  }

  /** `time_human` with the hour count left unwrapped. */
  function TimeTextFixed(t: nat): string {
    if t < 1000 then Decimal(t) + "ms"
    else
      var secs := t / 1000;
      var mins := secs / 60;
      Part(mins / 60, 'h') + Part(mins % 60, 'm') + Part(secs % 60, 's')
  }

  /** With unwrapped hours, reading the text back gives every whole second. */
  lemma TimeTextFixedRoundTrip(t: nat)
    ensures ParseTime(TimeTextFixed(t)) == Some(if t < 1000 then t else t / 1000 * 1000)
  {
    if t < 1000 {
      ParseMillis(t);
    } else {
      var secs := t / 1000;
      var h, m, sec := secs / 60 / 60, secs / 60 % 60, secs % 60;
      var text := Part(h, 'h') + Part(m, 'm') + Part(sec, 's');
      assert TimeTextFixed(t) == text;
      ParseClock(h, m, sec);
      ClockSplitFixed(secs);
      assert h * 3600000 + m * 60000 + sec * 1000 == (h * 3600 + m * 60 + sec) * 1000;
    }
  }

  /** Seconds split into unwrapped hours, minutes and seconds sum back to the
      seconds. */
  lemma ClockSplitFixed(secs: nat)
    ensures secs / 60 / 60 * 3600 + secs / 60 % 60 * 60 + secs % 60 == secs
  {
    var mins := secs / 60;
    assert secs == 60 * mins + secs % 60;
    assert mins == 60 * (mins / 60) + mins % 60;
  }

  /** With unwrapped hours no duration prints as the empty text. */
  lemma TimeTextFixedNonEmpty(t: nat)
    ensures TimeTextFixed(t) != ""
  {
    TimeTextFixedRoundTrip(t);
  }
}
