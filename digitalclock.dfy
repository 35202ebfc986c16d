/**
 * The request logic of the digital clock server: the `k` scale parameter,
 * the `HH:MM:SS` validator, the character-to-glyph lookup, the glyph list
 * for the time and the size of the image the glyphs are painted into.
 *
 * The time is taken as its runes. Go's validator looks at bytes, but the
 * two readings agree on every input: a time it accepts is ASCII, and a
 * byte or rune of 0x80 or above is neither a digit, a sign nor ':'.
 */
module DigitalClock {
  import opened GoBase
  import opened GoStrings

  /** The glyph bitmaps for '0' to '9' and ':', rows separated by newlines; their pixels are not part of this model. */
  datatype Glyphs = Glyphs(digits: seq<string>, colon: string)

  predicate WellFormed(g: Glyphs) {
    |g.digits| == 10 && (forall d :: 0 <= d < 10 ==> g.digits[d] != []) && g.colon != []
  }

  /** `bitmapFor`: the glyph of a digit or of ':', and "" for any other rune. */
  function BitmapFor(g: Glyphs, ch: char): string
    requires |g.digits| == 10
  {
    if IsDigit(ch) then g.digits[DigitValue(ch)] else if ch == ':' then g.colon else ""
  }

  /** With non-empty glyphs, `bitmapFor` is "" exactly for runes other than the digits and ':'. */
  lemma BitmapEmptyIff(g: Glyphs, ch: char)
    requires WellFormed(g)
    ensures BitmapFor(g, ch) == "" <==> !IsDigit(ch) && ch != ':'
  {
  }

  // ---------------------------------------------------------------------
  // The time

  /** `strconv.Atoi` succeeds on the field and its value lies in 0..hi. */
  predicate FieldIn(t: string, hi: int) {
    Atoi(t).Some? && 0 <= Atoi(t).value <= hi
  }

  /** `validTimeFormat`: eight runes, ':' at positions 2 and 5, then hours 0..23, minutes and seconds 0..59. */
  predicate ValidTimeFormat(s: string) {
    && |s| == 8 && s[2] == ':' && s[5] == ':'
    && FieldIn(s[0..2], 23) && FieldIn(s[3..5], 59) && FieldIn(s[6..8], 59)
  }

  /** Two decimal digits, with a leading zero. */
  function TwoDigits(n: nat): (t: string)
    requires n < 100
    ensures |t| == 2
  {
    [DigitChar(n / 10), DigitChar(n % 10)]
  }

  /** `time.Now().Format("15:04:05")` for a time of day. */
  function ClockText(h: nat, m: nat, sec: nat): (t: string)
    requires h < 24 && m < 60 && sec < 60
    ensures |t| == 8
  {
    TwoDigits(h) + ":" + TwoDigits(m) + ":" + TwoDigits(sec)
  }

  /** The value of a field of two decimal digits. */
  lemma TwoDigitValue(c: string)
    requires |c| == 2 && AllDigits(c)
    ensures DigitsValue(c) == 10 * DigitValue(c[0]) + DigitValue(c[1])
  {
    assert c[..1][..0] == [];
    assert DigitsValue(c[..1]) == DigitValue(c[0]);
  }

  lemma TwoDigitsParse(n: nat)
    requires n < 100
    ensures Atoi(TwoDigits(n)) == Some(n)
  {
    TwoDigitValue(TwoDigits(n));
  }

  /** The time of day the server formats when no time is asked for always passes the validator. */
  lemma ClockTextValid(h: nat, m: nat, sec: nat)
    requires h < 24 && m < 60 && sec < 60
    ensures ValidTimeFormat(ClockText(h, m, sec))
  {
    var s := ClockText(h, m, sec);
    assert s[0..2] == TwoDigits(h) && s[3..5] == TwoDigits(m) && s[6..8] == TwoDigits(sec);
    TwoDigitsParse(h);
    TwoDigitsParse(m);
    TwoDigitsParse(sec);
  }

  predicate IsSign(c: char) {
    c == '+' || c == '-'
  }

  /** A field that Atoi accepts: a digit last, and a digit or a sign first. */
  lemma FieldRunes(t: string)
    requires |t| == 2 && IsDecimal(t)
    ensures IsDigit(t[1]) && (IsDigit(t[0]) || IsSign(t[0]))
  {
    if HasSign(t) {
      assert t[1..][0] == t[1];
    }
  }

  /** A field of two digits is the two-digit text of its value. */
  lemma FieldRoundTrip(t: string)
    requires |t| == 2 && IsDigit(t[0]) && IsDigit(t[1])
    ensures IsDecimal(t) && DecimalValue(t) < 100 && TwoDigits(DecimalValue(t)) == t
  {
    TwoDigitValue(t);
  }

  /** What a field of a valid time is worth. */
  function FieldValue(t: string, hi: int): (v: nat)
    requires FieldIn(t, hi)
    ensures v <= hi
  {
    Atoi(t).value
  }

  /** A valid time without signs is exactly the clock text of its three fields. */
  lemma ValidIsClockText(s: string)
    requires ValidTimeFormat(s) && !IsSign(s[0]) && !IsSign(s[3]) && !IsSign(s[6])
    ensures s == ClockText(FieldValue(s[0..2], 23), FieldValue(s[3..5], 59), FieldValue(s[6..8], 59))
  {
    FieldRunes(s[0..2]);
    FieldRunes(s[3..5]);
    FieldRunes(s[6..8]);
    FieldRoundTrip(s[0..2]);
    FieldRoundTrip(s[3..5]);
    FieldRoundTrip(s[6..8]);
    assert s == s[0..2] + ":" + s[3..5] + ":" + s[6..8];
  }

  // ---------------------------------------------------------------------
  // The request

  /** The image scale the `k` parameter asks for: 1 when it is absent, None when it is a bad request. */
  function ParseK(ks: string): Option<int> {
    if ks == "" then Some(1)
    else match Atoi(ks)
      case Some(v) => if 1 <= v <= 30 then Some(v) else None
      case None => None
  }

  /** An accepted scale lies in 1..30, and is the number given when one is given. */
  lemma ParseKRange(ks: string)
    ensures ParseK("") == Some(1)
    ensures ParseK(ks).Some? ==> 1 <= ParseK(ks).value <= 30
    ensures ks != "" ==> (ParseK(ks).Some? <==> Atoi(ks).Some? && 1 <= Atoi(ks).value <= 30)
    ensures ks != "" && ParseK(ks).Some? ==> ParseK(ks) == Atoi(ks)
  {
  }

  /** Every scale in 1..30, written in decimal, is accepted as itself. */
  lemma ParseKItoa(k: int)
    requires 1 <= k <= 30
    ensures ParseK(Itoa(k)) == Some(k)
  {
    AtoiItoa(k);
  }

  /** The glyphs for the runes of the time, in order, or None when a rune has none. */
  function SymbolsFor(g: Glyphs, cs: string): (r: Option<seq<string>>)
    requires |g.digits| == 10
  {
    if forall k :: 0 <= k < |cs| ==> BitmapFor(g, cs[k]) != ""
    then Some(seq(|cs|, k requires 0 <= k < |cs| => BitmapFor(g, cs[k])))
    else None
  }

  /** The loop of `clockHandler` that looks up the glyph of every rune of the time. */
  method CollectSymbols(g: Glyphs, cs: string) returns (r: Option<seq<string>>)
    requires |g.digits| == 10
    ensures r == SymbolsFor(g, cs)
  {
    var symbols: seq<string> := [];
    for i := 0 to |cs|
      invariant |symbols| == i
      invariant forall k :: 0 <= k < i ==> BitmapFor(g, cs[k]) != "" && symbols[k] == BitmapFor(g, cs[k])
    {
      var sym := BitmapFor(g, cs[i]);
      if sym == "" {
        return None;
      }
      symbols := symbols + [sym];
    }
    assert symbols == seq(|cs|, k requires 0 <= k < |cs| => BitmapFor(g, cs[k]));
    return Some(symbols);
  }

  datatype Response = BadRequest(message: string) | Image(width: int, height: int, symbols: seq<string>)

  /** The image size: six digit glyphs and two colon glyphs side by side, as tall as the first glyph, scaled by k. */
  function ImageSize(g: Glyphs, symbols: seq<string>, k: int): (int, int)
    requires symbols != []
  {
    var first := Split(symbols[0], '\n');
    ((6 * |first[0]| + 2 * |Split(g.colon, '\n')[0]|) * k, |first| * k)
  }

  /** Width and height grow linearly with the scale. */
  lemma ImageScales(g: Glyphs, symbols: seq<string>, k: int)
    requires symbols != []
    ensures ImageSize(g, symbols, k).0 == k * ImageSize(g, symbols, 1).0
    ensures ImageSize(g, symbols, k).1 == k * ImageSize(g, symbols, 1).1
  {
  }

  /** The clock reading for a request without a time. */
  datatype TimeOfDay = TimeOfDay(hour: nat, minute: nat, second: nat)

  predicate IsTimeOfDay(now: TimeOfDay) {
    now.hour < 24 && now.minute < 60 && now.second < 60
  }

  /** The time the handler draws: the one asked for, or the clock's. */
  function TimeText(timeStr: string, now: TimeOfDay): string
    requires IsTimeOfDay(now)
  {
    if timeStr == "" then ClockText(now.hour, now.minute, now.second) else timeStr
  }

  /** What `clockHandler` answers, before painting: a bad request, or the image size and the glyphs to paint. */
  function Handler(g: Glyphs, ks: string, timeStr: string, now: TimeOfDay): Response
    requires |g.digits| == 10 && IsTimeOfDay(now)
  {
    match ParseK(ks)
    case None => BadRequest("invalid k")
    case Some(k) =>
      if timeStr != "" && !ValidTimeFormat(timeStr) then BadRequest("invalid time")
      else
        var symbols := SymbolsFor(g, TimeText(timeStr, now));
        if symbols.None? then BadRequest("invalid time")
        else
          EightGlyphs(g, timeStr, now);
          var size := ImageSize(g, symbols.value, k);
          Image(size.0, size.1, symbols.value)
  }

  /**
   * The time drawn always has eight runes, so once every rune has a glyph
   * there are eight glyphs and `symbols[0]` exists.
   */
  lemma EightGlyphs(g: Glyphs, timeStr: string, now: TimeOfDay)
    requires |g.digits| == 10 && IsTimeOfDay(now)
    requires timeStr == "" || ValidTimeFormat(timeStr)
    ensures SymbolsFor(g, TimeText(timeStr, now)).Some? ==> |SymbolsFor(g, TimeText(timeStr, now)).value| == 8
  {
  }

  /** `clockHandler` up to the painting, proved against Handler. */
  method ClockHandler(g: Glyphs, ks: string, timeStr: string, now: TimeOfDay) returns (r: Response)
    requires |g.digits| == 10 && IsTimeOfDay(now)
    ensures r == Handler(g, ks, timeStr, now)
  {
    var k := 1;
    if ks != "" {
      var ki := Atoi(ks);
      if ki.None? || ki.value < 1 || ki.value > 30 {
        return BadRequest("invalid k");
      }
      k := ki.value;
    }
    var t := timeStr;
    if t == "" {
      t := ClockText(now.hour, now.minute, now.second);
    } else if !ValidTimeFormat(t) {
      return BadRequest("invalid time");
    }
    var symbols := CollectSymbols(g, t);
    if symbols.None? {
      return BadRequest("invalid time");
    }
    EightGlyphs(g, timeStr, now);
    var size := ImageSize(g, symbols.value, k);
    return Image(size.0, size.1, symbols.value);
  }

  /** Every rune of a valid time is a digit or ':', except that a field may start with a sign. */
  lemma ValidRunes(s: string, k: nat)
    requires ValidTimeFormat(s) && k < 8
    ensures IsDigit(s[k]) || s[k] == ':' || (IsSign(s[k]) && (k == 0 || k == 3 || k == 6))
  {
    if k < 2 {
      FieldRunes(s[0..2]);
      assert s[k] == s[0..2][k];
    } else if 2 < k < 5 {
      FieldRunes(s[3..5]);
      assert s[k] == s[3..5][k - 3];
    } else if 5 < k {
      FieldRunes(s[6..8]);
      assert s[k] == s[6..8][k - 6];
    }
  }

  /** A time of digits and ':' has a glyph for every rune. */
  lemma SymbolsSome(g: Glyphs, s: string)
    requires WellFormed(g) && forall k :: 0 <= k < |s| ==> IsDigit(s[k]) || s[k] == ':'
    ensures SymbolsFor(g, s).Some? && |SymbolsFor(g, s).value| == |s|
  {
  }

  /**
   * The handler draws an image exactly when the scale is accepted and the
   * time is absent, or valid and without a sign: Atoi lets "+1:00:00"
   * through the validator, but '+' has no glyph.
   */
  lemma HandlerAccepts(g: Glyphs, ks: string, timeStr: string, now: TimeOfDay)
    requires WellFormed(g) && IsTimeOfDay(now)
    ensures Handler(g, ks, timeStr, now).Image? <==>
      ParseK(ks).Some? &&
      (timeStr == "" || (ValidTimeFormat(timeStr) && !IsSign(timeStr[0]) && !IsSign(timeStr[3]) && !IsSign(timeStr[6])))
  {
    var t := TimeText(timeStr, now);
    if timeStr == "" {
      ClockTextValid(now.hour, now.minute, now.second);
    }
    if ParseK(ks).Some? && ValidTimeFormat(t) {
      if !IsSign(t[0]) && !IsSign(t[3]) && !IsSign(t[6]) {
        forall k | 0 <= k < |t| ensures IsDigit(t[k]) || t[k] == ':' {
          ValidRunes(t, k);
        }
        SymbolsSome(g, t);
      } else {
        var k := if IsSign(t[0]) then 0 else if IsSign(t[3]) then 3 else 6;
        assert BitmapFor(g, t[k]) == "";
      }
    }
  }

  /** "+1:00:00" passes the validator, and so is turned away only for want of a glyph. */
  lemma SignedHourValid()
    ensures ValidTimeFormat("+1:00:00")
  {
    var s := "+1:00:00";
    assert s[3..5] == TwoDigits(0) && s[6..8] == TwoDigits(0);
    TwoDigitsParse(0);
    var c := s[0..2];
    assert c[1..] == "1";
    assert DigitsValue(c[1..]) == 1 by {
      assert c[1..][..0] == [];
    }
  }
}
