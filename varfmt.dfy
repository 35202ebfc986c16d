/**
 * The placeholder formatter: `Sprintf(format, args...)` copies the format
 * and replaces each `{}` with the next argument and each `{n}` with
 * argument n, counting every placeholder, indexed or not.
 *
 * Arguments are given as the bytes `fmt.Sprint` prints for them. Go's
 * `string(format[i])` converts a byte to the rune of the same number and
 * writes that rune in UTF-8, so a byte of 0x80 or above comes out as two
 * bytes; `LiteralCopy` selects between that behaviour (`AsWritten`) and a
 * byte-for-byte copy (`Verbatim`).
 */
module VarFmt {
  import opened GoBase

  const LBrace: byte := 0x7B
  const RBrace: byte := 0x7D

  /** How a byte of the format reaches the output. */
  datatype LiteralCopy = AsWritten | Verbatim

  /** `string(b)` for a byte `b`: the UTF-8 encoding of the rune with b's number, or the byte itself. */
  function CopyByte(mode: LiteralCopy, b: byte): seq<byte> {
    if mode == Verbatim || b < 0x80 then [b] else [0xC0 | (b >> 6), 0x80 | (b & 0x3F)]
  }

  function Copies(mode: LiteralCopy, s: seq<byte>): seq<byte> {
    if s == [] then [] else CopyByte(mode, s[0]) + Copies(mode, s[1..])
  }

  predicate Ascii(s: seq<byte>) {
    forall k :: 0 <= k < |s| ==> s[k] < 0x80
  }

  /** The position of the first `}` at or after k; |f| when there is none. */
  function CloseFrom(f: seq<byte>, k: nat): (j: nat)
    requires k <= |f|
    ensures k <= j <= |f|
    ensures j < |f| ==> f[j] == RBrace
    decreases |f| - k
  {
    if k == |f| || f[k] == RBrace then k else CloseFrom(f, k + 1)
  }

  /** The argument a placeholder with text `numS` selects: its number, with the Atoi error ignored, or the counter. */
  function ArgIndex(numS: seq<byte>, cnt: nat): int {
    if numS != [] then AtoiIgnoringError(Chars(numS)) else cnt
  }

  function Prepend(p: seq<byte>, o: Outcome<seq<byte>>): Outcome<seq<byte>> {
    match o
    case Ok(x) => Ok(p + x)
    case Panic => Panic
  }

  /**
   * What `Sprintf` writes from position i of the format on, with `cnt`
   * placeholders seen; Panic for an index out of range, at `format[i]` past
   * the end while looking for `}` or at `args[num]`.
   */
  function ScanFrom(mode: LiteralCopy, f: seq<byte>, args: seq<seq<byte>>, i: nat, cnt: nat): Outcome<seq<byte>>
    requires i <= |f|
    decreases |f| - i
  {
    if i == |f| then Ok([])
    else if f[i] != LBrace then Prepend(CopyByte(mode, f[i]), ScanFrom(mode, f, args, i + 1, cnt))
    else
      var j := CloseFrom(f, i + 1);
      if j == |f| then Panic
      else
        var num := ArgIndex(Copies(mode, f[i + 1..j]), cnt);
        if 0 <= num < |args| then Prepend(args[num], ScanFrom(mode, f, args, j + 1, cnt + 1)) else Panic
  }

  /** What `Sprintf(format, args...)` returns. */
  function SprintfSpec(mode: LiteralCopy, format: seq<byte>, args: seq<seq<byte>>): Outcome<seq<byte>> {
    ScanFrom(mode, format, args, 0, 0)
  }

  lemma {:induction false} CopiesAppend(mode: LiteralCopy, a: seq<byte>, b: seq<byte>)
    ensures Copies(mode, a + b) == Copies(mode, a) + Copies(mode, b)
  {
    if a != [] {
      assert (a + b)[1..] == a[1..] + b;
      CopiesAppend(mode, a[1..], b);
    } else {
      assert a + b == b;
    }
  }

  /** Copying one more byte of a stretch of the format. */
  lemma CopiesSnoc(mode: LiteralCopy, s: seq<byte>, lo: nat, hi: nat)
    requires lo <= hi < |s|
    ensures Copies(mode, s[lo..hi + 1]) == Copies(mode, s[lo..hi]) + CopyByte(mode, s[hi])
  {
    assert s[lo..hi + 1] == s[lo..hi] + [s[hi]];
    CopiesAppend(mode, s[lo..hi], [s[hi]]);
    assert Copies(mode, [s[hi]]) == CopyByte(mode, s[hi]) + [];
  }

  lemma PrependPrepend(p: seq<byte>, q: seq<byte>, o: Outcome<seq<byte>>)
    ensures Prepend(p, Prepend(q, o)) == Prepend(p + q, o)
  {
    if o.Ok? {
      assert p + (q + o.value) == (p + q) + o.value;
    }
  }

  lemma PrependNothing(o: Outcome<seq<byte>>)
    ensures Prepend([], o) == o
  {
    if o.Ok? {
      assert [] + o.value == o.value;
    }
  }

  // ---------------------------------------------------------------------
  // Sprintf

  /** The inner loop of `Sprintf`: the text of the placeholder opened at `start`, up to its `}` or the end. */
  method ReadPlaceholder(mode: LiteralCopy, format: seq<byte>, start: nat) returns (i: nat, numS: seq<byte>)
    requires start < |format| && format[start] == LBrace
    ensures i == CloseFrom(format, start + 1)
    ensures numS == Copies(mode, format[start + 1..i])
  {
    i := start + 1;
    numS := [];
    while i < |format| && format[i] != RBrace
      invariant start < i <= |format|
      invariant CloseFrom(format, i) == CloseFrom(format, start + 1)
      invariant numS == Copies(mode, format[start + 1..i])
    {
      CopiesSnoc(mode, format, start + 1, i);
      numS := numS + CopyByte(mode, format[i]);
      i := i + 1;
    }
  }

  /** One turn of the loop of `Sprintf` at position i0: what it writes and where it goes on, or the panic. */
  method Step(mode: LiteralCopy, format: seq<byte>, args: seq<seq<byte>>, i0: nat, cnt0: nat)
    returns (i: nat, cnt: nat, out: Outcome<seq<byte>>)
    requires i0 < |format|
    ensures out.Panic? ==> ScanFrom(mode, format, args, i0, cnt0) == Panic
    ensures out.Ok? ==> i0 < i <= |format|
    ensures out.Ok? ==> ScanFrom(mode, format, args, i0, cnt0) == Prepend(out.value, ScanFrom(mode, format, args, i, cnt))
  {
    i, cnt := i0, cnt0;
    if format[i] == LBrace {
      var numS;
      i, numS := ReadPlaceholder(mode, format, i);
      if i == |format| {
        return i, cnt, Panic;
      }
      var num := if numS != [] then AtoiIgnoringError(Chars(numS)) else cnt;
      if !(0 <= num < |args|) {
        return i, cnt, Panic;
      }
      out := Ok(args[num]);
      cnt := cnt + 1;
    } else {
      out := Ok(CopyByte(mode, format[i]));
    }
    i := i + 1;
  }

  /** `Sprintf`, proved against SprintfSpec. */
  method Sprintf(mode: LiteralCopy, format: seq<byte>, args: seq<seq<byte>>) returns (r: Outcome<seq<byte>>)
    ensures r == SprintfSpec(mode, format, args)
  {
    var res: seq<byte> := [];
    var cnt: nat := 0;
    var i := 0;
    PrependNothing(ScanFrom(mode, format, args, 0, 0));
    while i < |format|
      invariant 0 <= i <= |format|
      invariant Prepend(res, ScanFrom(mode, format, args, i, cnt)) == ScanFrom(mode, format, args, 0, 0)
      decreases |format| - i
    {
      var out;
      i, cnt, out := Step(mode, format, args, i, cnt);
      if out.Panic? {
        return Panic;
      }
      PrependPrepend(res, out.value, ScanFrom(mode, format, args, i, cnt));
      res := res + out.value;
    }
    assert res + [] == res;
    return Ok(res);
  }

  // ---------------------------------------------------------------------
  // Copying literal text

  /** No `{` among the bytes at positions i up to e of the format. */
  predicate NoOpen(f: seq<byte>, i: nat, e: nat)
    requires i <= e <= |f|
  {
    forall m :: i <= m < e ==> f[m] != LBrace
  }

  lemma NoOpenOf(f: seq<byte>, i: nat, e: nat)
    requires i <= e <= |f| && LBrace !in f[i..e]
    ensures NoOpen(f, i, e)
  {
    forall m | i <= m < e ensures f[m] != LBrace {
      assert f[m] == f[i..e][m - i];
    }
  }

  /** A stretch without `{` is copied, byte by byte, in front of whatever follows. */
  lemma {:induction false} ScanLiteral(mode: LiteralCopy, f: seq<byte>, args: seq<seq<byte>>, i: nat, e: nat, cnt: nat)
    requires i <= e <= |f| && NoOpen(f, i, e)
    ensures ScanFrom(mode, f, args, i, cnt) == Prepend(Copies(mode, f[i..e]), ScanFrom(mode, f, args, e, cnt))
    decreases e - i
  {
    if i == e {
      assert f[i..e] == [];
      PrependNothing(ScanFrom(mode, f, args, e, cnt));
    } else {
      ScanLiteral(mode, f, args, i + 1, e, cnt);
      assert f[i..e][1..] == f[i + 1..e];
      assert Copies(mode, f[i..e]) == CopyByte(mode, f[i]) + Copies(mode, f[i + 1..e]);
      PrependPrepend(CopyByte(mode, f[i]), Copies(mode, f[i + 1..e]), ScanFrom(mode, f, args, e, cnt));
    }
  }

  lemma {:induction false} CopiesVerbatim(s: seq<byte>)
    ensures Copies(Verbatim, s) == s
  {
    if s != [] {
      CopiesVerbatim(s[1..]);
    }
  }

  lemma {:induction false} CopiesAscii(mode: LiteralCopy, s: seq<byte>)
    requires Ascii(s)
    ensures Copies(mode, s) == s
  {
    if s != [] {
      CopiesAscii(mode, s[1..]);
    }
  }

  /** Re-encoding only ever lengthens, and strictly when a byte is 0x80 or above. */
  lemma {:induction false} CopiesLength(s: seq<byte>)
    ensures |Copies(AsWritten, s)| >= |s|
    ensures !Ascii(s) ==> |Copies(AsWritten, s)| > |s|
  {
    if s != [] {
      CopiesLength(s[1..]);
    }
  }

  /** A text holding a rune that is neither a digit nor a sign is not a decimal. */
  lemma NotDecimal(s: string, j: nat)
    requires j < |s| && s[j] as int >= 0x80
    ensures !IsDecimal(s)
  {
    if HasSign(s) {
      assert s[1..][j - 1] == s[j];
    }
  }

  /**
   * Re-encoding a text with a byte of 0x80 or above keeps everything before
   * the first such byte and puts a byte of 0x80 or above in its place.
   */
  lemma {:induction false} CopiesCut(s: seq<byte>) returns (k: nat)
    requires !Ascii(s)
    ensures k < |s| && k < |Copies(AsWritten, s)|
    ensures s[..k] == Copies(AsWritten, s)[..k]
    ensures s[k] >= 0x80 && Copies(AsWritten, s)[k] >= 0x80
  {
    var c := Copies(AsWritten, s);
    if s[0] >= 0x80 {
      k := 0;
      assert c[0] == 0xC0 | (s[0] >> 6);
    } else {
      assert !Ascii(s[1..]) by {
        var j :| 0 <= j < |s| && s[j] >= 0x80;
        assert s[1..][j - 1] == s[j];
      }
      var k1 := CopiesCut(s[1..]);
      k := k1 + 1;
      var t := Copies(AsWritten, s[1..]);
      assert c == [s[0]] + t;
      assert s[..k] == [s[0]] + s[1..][..k1];
      assert c[..k] == [s[0]] + t[..k1];
    }
  }

  /** Byte strings that agree on a prefix read as rune strings that agree on it. */
  lemma CharsCut(s: seq<byte>, t: seq<byte>, k: nat)
    requires k <= |s| && k <= |t| && s[..k] == t[..k]
    ensures Chars(s)[..k] == Chars(t)[..k]
  {
    forall m | 0 <= m < k ensures Chars(s)[m] == Chars(t)[m] {
      CharsAt(s, m);
      CharsAt(t, m);
      assert s[m] == s[..k][m] == t[..k][m] == t[m];
    }
  }

  /**
   * A rune of 0x80 or above ends what `strconv.Atoi` reads: it is neither a
   * sign nor a digit, so texts that agree before such a rune give the same int.
   */
  lemma AtoiCut(s: string, t: string, m: nat)
    requires m < |s| && m < |t| && s[..m] == t[..m]
    requires s[m] as int >= 0x80 && t[m] as int >= 0x80
    ensures AtoiIgnoringError(s) == AtoiIgnoringError(t)
  {
    NotDecimal(s, m);
    NotDecimal(t, m);
    if m > 0 {
      assert s[0] == s[..m][0] == t[..m][0] == t[0];
    }
    if HasSign(s) {
      assert Unsigned(s)[..m - 1] == s[..m][1..] == t[..m][1..] == Unsigned(t)[..m - 1];
      LeadingValueCut(Unsigned(s), Unsigned(t), m - 1, 0);
    } else {
      LeadingValueCut(s, t, m, 0);
    }
  }

  /** The argument selected by a placeholder with text `h` when `k` placeholders came before it. */
  function Sel(h: seq<byte>, k: nat): int {
    if h == [] then k else AtoiIgnoringError(Chars(h))
  }

  /**
   * Re-encoding the placeholder text does not change the selected argument:
   * `strconv.Atoi` stops at the first byte that re-encoding changes, and
   * that byte is neither a sign nor a digit either way.
   */
  lemma IndexIgnoresEncoding(mode: LiteralCopy, h: seq<byte>, cnt: nat)
    ensures ArgIndex(Copies(mode, h), cnt) == Sel(h, cnt)
  {
    if Ascii(h) {
      CopiesAscii(mode, h);
    } else if mode == Verbatim {
      CopiesVerbatim(h);
    } else {
      var c := Copies(mode, h);
      var k := CopiesCut(h);
      CharsCut(h, c, k);
      CharsAt(h, k);
      CharsAt(c, k);
      AtoiCut(Chars(h), Chars(c), k);
    }
  }

  /**
   * A non-numeric index selects argument 0, because the Atoi error is
   * ignored, unless its digits overflow before the first non-digit.
   */
  lemma NonNumericIndex(h: seq<byte>, k: nat)
    requires h != [] && !IsDecimal(Chars(h)) && !RunOverflows(Chars(h))
    ensures Sel(h, k) == 0
  {
    AtoiIgnoringErrorCases(Chars(h));
  }

  /**
   * An index whose digits overflow, numeric or not, selects the int64 bound
   * on the side of its sign, and no slice is that long.
   */
  lemma OverflowingIndex(h: seq<byte>, k: nat, args: seq<seq<byte>>)
    requires h != [] && RunOverflows(Chars(h)) && |args| <= MaxInt64
    ensures Sel(h, k) == if Negative(Chars(h)) then MinInt64 else MaxInt64
    ensures !(0 <= Sel(h, k) < |args|)
  {
    AtoiIgnoringErrorCases(Chars(h));
  }

  // ---------------------------------------------------------------------
  // Placeholders

  /** CloseFrom stops at the first `}`. */
  lemma {:induction false} CloseFromFirst(f: seq<byte>, k: nat, j: nat)
    requires k <= j < |f| && f[j] == RBrace
    requires forall m :: k <= m < j ==> f[m] != RBrace
    ensures CloseFrom(f, k) == j
    decreases j - k
  {
    if k < j {
      CloseFromFirst(f, k + 1, j);
    }
  }

  /** A placeholder from `{` at i to `}` at j: it writes the argument it selects, or panics. */
  lemma ScanHole(mode: LiteralCopy, f: seq<byte>, args: seq<seq<byte>>, i: nat, j: nat, cnt: nat)
    requires i < j < |f| && f[i] == LBrace && f[j] == RBrace && RBrace !in f[i + 1..j]
    ensures ScanFrom(mode, f, args, i, cnt) ==
      if 0 <= Sel(f[i + 1..j], cnt) < |args|
      then Prepend(args[Sel(f[i + 1..j], cnt)], ScanFrom(mode, f, args, j + 1, cnt + 1))
      else Panic
  {
    forall m | i + 1 <= m < j ensures f[m] != RBrace {
      assert f[m] == f[i + 1..j][m - i - 1];
    }
    CloseFromFirst(f, i + 1, j);
    assert CloseFrom(f, i + 1) == j != |f|;
    var num := ArgIndex(Copies(mode, f[i + 1..j]), cnt);
    assert ScanFrom(mode, f, args, i, cnt) ==
      if 0 <= num < |args| then Prepend(args[num], ScanFrom(mode, f, args, j + 1, cnt + 1)) else Panic;
    IndexIgnoresEncoding(mode, f[i + 1..j], cnt);
  }

  /** A placeholder whose digits overflow makes `Sprintf` panic at `args[num]`. */
  lemma OverflowingPlaceholderPanics(mode: LiteralCopy, f: seq<byte>, args: seq<seq<byte>>, i: nat, j: nat, cnt: nat)
    requires i < j < |f| && f[i] == LBrace && f[j] == RBrace && RBrace !in f[i + 1..j]
    requires RunOverflows(Chars(f[i + 1..j])) && |args| <= MaxInt64
    ensures ScanFrom(mode, f, args, i, cnt) == Panic
  {
    ScanHole(mode, f, args, i, j, cnt);
    OverflowingIndex(f[i + 1..j], cnt, args);
  }

  function Pow10(k: nat): nat {
    if k == 0 then 1 else 10 * Pow10(k - 1)
  }

  /** k nines are worth 10^k - 1. */
  lemma {:induction false} NinesValue(s: string)
    requires forall m :: 0 <= m < |s| ==> s[m] == '9'
    ensures AllDigits(s) && DigitsValue(s) + 1 == Pow10(|s|)
  {
    if |s| > 0 {
      NinesValue(s[..|s| - 1]);
    }
  }

  /** The loop runs through the digits of a and carries on into b. */
  lemma {:induction false} LeadingValueAppend(a: string, b: string, n: nat)
    requires AllDigits(a)
    ensures LeadingValue(a + b, n) == LeadingValue(b, LeadingValue(a, n))
  {
    if a != [] {
      assert (a + b)[0] == a[0] && (a + b)[1..] == a[1..] + b;
      LeadingValueAppend(a[1..], b, n * 10 + DigitValue(a[0]));
    } else {
      assert a + b == b;
    }
  }

  /** The loop's value never drops. */
  lemma {:induction false} LeadingValueGrows(t: string, n: nat)
    ensures LeadingValue(t, n) >= n
  {
    if t != [] && IsDigit(t[0]) {
      LeadingValueGrows(t[1..], n * 10 + DigitValue(t[0]));
    }
  }

  /** Twenty nines exceed 2^64 - 1: a text starting with them overflows, whatever follows. */
  lemma LeadingNinesOverflow(s: string)
    requires |s| >= 20 && forall m :: 0 <= m < 20 ==> s[m] == '9'
    ensures RunOverflows(s) && AtoiIgnoringError(s) == MaxInt64
  {
    var nines, rest := s[..20], s[20..];
    NinesValue(nines);
    LeadingValueDigits(nines, 0);
    assert nines[0..] == nines && nines[..0] == [];
    assert s == nines + rest;
    LeadingValueAppend(nines, rest, 0);
    LeadingValueGrows(rest, DigitsValue(nines));
    assert Pow10(5) == 100000;
    assert Pow10(10) == 10000000000;
    assert Pow10(15) == 1000000000000000;
    assert Pow10(20) == 100000000000000000000;
    assert !HasSign(s) && Unsigned(s) == s;
    AtoiIgnoringErrorCases(s);
  }

  /** So the index `99999999999999999999x` selects MaxInt64, not 0: its digits overflow before the `x`. */
  lemma TwentyNinesOverflow()
    ensures RunOverflows("99999999999999999999x")
    ensures AtoiIgnoringError("99999999999999999999x") == MaxInt64
  {
    LeadingNinesOverflow("99999999999999999999x");
  }

  /**
   * The format `ls[0] {holes[0]} ls[1] {holes[1]} ... ls[m]`: the literal
   * stretches `ls` hold no `{` and may hold `}`, the placeholder texts `holes`
   * hold no `}`.
   */
  function Unparse(ls: seq<seq<byte>>, holes: seq<seq<byte>>): seq<byte>
    requires |ls| == |holes| + 1
    decreases |holes|
  {
    if holes == [] then ls[0] else ls[0] + [LBrace] + holes[0] + [RBrace] + Unparse(ls[1..], holes[1..])
  }

  predicate Template(ls: seq<seq<byte>>, holes: seq<seq<byte>>) {
    && |ls| == |holes| + 1
    && (forall k :: 0 <= k < |ls| ==> LBrace !in ls[k])
    && (forall k :: 0 <= k < |holes| ==> RBrace !in holes[k])
  }

  /** The arguments the placeholders select, the k-th counting as number `cnt + k`. */
  function Selection(holes: seq<seq<byte>>, cnt: nat): (sel: seq<int>)
    ensures |sel| == |holes|
  {
    seq(|holes|, k requires 0 <= k < |holes| => Sel(holes[k], cnt + k))
  }

  predicate InRange(sel: seq<int>, args: seq<seq<byte>>) {
    forall k :: 0 <= k < |sel| ==> 0 <= sel[k] < |args|
  }

  /** The literal stretches with the selected arguments between them. */
  function Fill(mode: LiteralCopy, ls: seq<seq<byte>>, sel: seq<int>, args: seq<seq<byte>>): seq<byte>
    requires |ls| == |sel| + 1 && InRange(sel, args)
    decreases |sel|
  {
    if sel == [] then Copies(mode, ls[0])
    else Copies(mode, ls[0]) + args[sel[0]] + Fill(mode, ls[1..], sel[1..], args)
  }

  /** The placeholders after the first count on from `cnt + 1`. */
  lemma SelectionTail(holes: seq<seq<byte>>, cnt: nat, args: seq<seq<byte>>)
    requires holes != []
    ensures Selection(holes[1..], cnt + 1) == Selection(holes, cnt)[1..]
    ensures InRange(Selection(holes, cnt), args) <==>
      0 <= Selection(holes, cnt)[0] < |args| && InRange(Selection(holes[1..], cnt + 1), args)
  {
    var sel, sel1 := Selection(holes, cnt), Selection(holes[1..], cnt + 1);
    assert sel1 == sel[1..];
    if 0 <= sel[0] < |args| && InRange(sel1, args) {
      forall k | 0 <= k < |sel| ensures 0 <= sel[k] < |args| {
        if k > 0 {
          assert sel[k] == sel1[k - 1];
        }
      }
    }
  }

  /** Where the first literal stretch and the first placeholder of a template lie in the format. */
  lemma PieceAt(f: seq<byte>, i: nat, lit: seq<byte>, h: seq<byte>, rest: seq<byte>)
    requires i <= |f| && f[i..] == lit + ([LBrace] + h + [RBrace] + rest)
    ensures i + |lit| + |h| + 1 < |f|
    ensures f[i..i + |lit|] == lit && f[i + |lit|] == LBrace
    ensures f[i + |lit| + 1..i + |lit| + |h| + 1] == h && f[i + |lit| + |h| + 1] == RBrace
    ensures f[i + |lit| + |h| + 2..] == rest
  {
    var g := f[i..];
    var p := |lit|;
    assert f[i..i + p] == g[..p];
    assert f[i + p] == g[p];
    assert f[i + p + 1..i + p + |h| + 1] == g[p + 1..p + |h| + 1];
    assert f[i + p + |h| + 1] == g[p + |h| + 1];
    assert f[i + p + |h| + 2..] == g[p + |h| + 2..];
  }

  /** A literal stretch and the placeholder after it: the copied stretch and the selected argument, or Panic. */
  lemma ScanPiece(mode: LiteralCopy, f: seq<byte>, args: seq<seq<byte>>, i: nat, p: nat, j: nat, cnt: nat)
    requires i <= p < j < |f| && NoOpen(f, i, p)
    requires f[p] == LBrace && f[j] == RBrace && RBrace !in f[p + 1..j]
    ensures ScanFrom(mode, f, args, i, cnt) ==
      if 0 <= Sel(f[p + 1..j], cnt) < |args|
      then Prepend(Copies(mode, f[i..p]) + args[Sel(f[p + 1..j], cnt)], ScanFrom(mode, f, args, j + 1, cnt + 1))
      else Panic
  {
    ScanLiteral(mode, f, args, i, p, cnt);
    ScanHole(mode, f, args, p, j, cnt);
    var k := Sel(f[p + 1..j], cnt);
    if 0 <= k < |args| {
      PrependPrepend(Copies(mode, f[i..p]), args[k], ScanFrom(mode, f, args, j + 1, cnt + 1));
    }
  }

  /** The first piece of a template: where the rest of it starts, and what the piece writes. */
  lemma TemplateHead(mode: LiteralCopy, f: seq<byte>, args: seq<seq<byte>>, i: nat, cnt: nat,
                     ls: seq<seq<byte>>, holes: seq<seq<byte>>) returns (j: nat)
    requires Template(ls, holes) && holes != [] && i <= |f| && f[i..] == Unparse(ls, holes)
    ensures j < |f| && f[j + 1..] == Unparse(ls[1..], holes[1..]) && Template(ls[1..], holes[1..])
    ensures ScanFrom(mode, f, args, i, cnt) ==
      if 0 <= Sel(holes[0], cnt) < |args|
      then Prepend(Copies(mode, ls[0]) + args[Sel(holes[0], cnt)], ScanFrom(mode, f, args, j + 1, cnt + 1))
      else Panic
  {
    var rest := Unparse(ls[1..], holes[1..]);
    var h := holes[0];
    assert f[i..] == ls[0] + ([LBrace] + h + [RBrace] + rest);
    PieceAt(f, i, ls[0], h, rest);
    var p := i + |ls[0]|;
    j := p + |h| + 1;
    assert LBrace !in ls[0] && RBrace !in h;
    NoOpenOf(f, i, p);
    ScanPiece(mode, f, args, i, p, j, cnt);
    assert f[i..p] == ls[0] && f[p + 1..j] == h;
    assert Template(ls[1..], holes[1..]);
  }

  /** The format from position i on is a template: it is filled in, or panics. */
  lemma {:induction false} ScanTemplate(mode: LiteralCopy, f: seq<byte>, args: seq<seq<byte>>, i: nat, cnt: nat,
                                        ls: seq<seq<byte>>, holes: seq<seq<byte>>)
    requires Template(ls, holes) && i <= |f| && f[i..] == Unparse(ls, holes)
    ensures ScanFrom(mode, f, args, i, cnt) ==
      if InRange(Selection(holes, cnt), args) then Ok(Fill(mode, ls, Selection(holes, cnt), args)) else Panic
    decreases |holes|
  {
    if holes == [] {
      assert f[i..|f|] == ls[0];
      NoOpenOf(f, i, |f|);
      ScanLiteral(mode, f, args, i, |f|, cnt);
      assert ScanFrom(mode, f, args, |f|, cnt) == Ok([]);
      assert Copies(mode, ls[0]) + [] == Copies(mode, ls[0]);
    } else {
      var j := TemplateHead(mode, f, args, i, cnt, ls, holes);
      ScanTemplate(mode, f, args, j + 1, cnt + 1, ls[1..], holes[1..]);
      FillCons(mode, ls, holes, cnt, args, ScanFrom(mode, f, args, j + 1, cnt + 1));
    }
  }

  /** Filling a template is filling its first piece, then the rest with the counter one higher. */
  lemma FillCons(mode: LiteralCopy, ls: seq<seq<byte>>, holes: seq<seq<byte>>, cnt: nat, args: seq<seq<byte>>,
                 rest: Outcome<seq<byte>>)
    requires |ls| == |holes| + 1 && holes != []
    requires rest == if InRange(Selection(holes[1..], cnt + 1), args)
      then Ok(Fill(mode, ls[1..], Selection(holes[1..], cnt + 1), args)) else Panic
    ensures (if 0 <= Sel(holes[0], cnt) < |args| then Prepend(Copies(mode, ls[0]) + args[Sel(holes[0], cnt)], rest) else Panic)
      == if InRange(Selection(holes, cnt), args) then Ok(Fill(mode, ls, Selection(holes, cnt), args)) else Panic
  {
    SelectionTail(holes, cnt, args);
    var sel := Selection(holes, cnt);
    assert sel[0] == Sel(holes[0], cnt);
  }

  // ---------------------------------------------------------------------
  // What the formatter promises

  /**
   * Placeholders are filled in order: the k-th one, counting indexed ones
   * too, writes `args[k]` when it is `{}` and `args[n]` when it is `{n}`;
   * a lone `}` in the literal text is copied; the result is Panic exactly
   * when one of the placeholders selects no argument.
   */
  lemma PlaceholdersInOrder(mode: LiteralCopy, ls: seq<seq<byte>>, holes: seq<seq<byte>>, args: seq<seq<byte>>)
    requires Template(ls, holes)
    ensures SprintfSpec(mode, Unparse(ls, holes), args) ==
      if InRange(Selection(holes, 0), args) then Ok(Fill(mode, ls, Selection(holes, 0), args)) else Panic
    ensures forall k :: 0 <= k < |holes| && holes[k] == [] ==> Selection(holes, 0)[k] == k
  {
    var f := Unparse(ls, holes);
    assert f[0..] == f;
    ScanTemplate(mode, f, args, 0, 0, ls, holes);
  }

  /** A `{` at position p with no `}` anywhere after it makes `Sprintf` panic, whatever comes before. */
  lemma {:induction false} UnclosedPanics(mode: LiteralCopy, f: seq<byte>, args: seq<seq<byte>>, i: nat, cnt: nat, p: nat)
    requires i <= p < |f| && f[p] == LBrace
    requires forall m :: p < m < |f| ==> f[m] != RBrace
    ensures ScanFrom(mode, f, args, i, cnt) == Panic
    decreases |f| - i
  {
    if f[i] != LBrace {
      UnclosedPanics(mode, f, args, i + 1, cnt, p);
      assert ScanFrom(mode, f, args, i, cnt) == Prepend(CopyByte(mode, f[i]), ScanFrom(mode, f, args, i + 1, cnt));
    } else {
      var j := CloseFrom(f, i + 1);
      if j < |f| {
        assert f[j] == RBrace;
        assert j < p;
        UnclosedPanics(mode, f, args, j + 1, cnt + 1, p);
        var num := ArgIndex(Copies(mode, f[i + 1..j]), cnt);
        assert ScanFrom(mode, f, args, i, cnt) ==
          if 0 <= num < |args| then Prepend(args[num], ScanFrom(mode, f, args, j + 1, cnt + 1)) else Panic;
      }
    }
  }

  /** A format without `{` is its literal text, copied. */
  lemma LiteralsCopied(mode: LiteralCopy, format: seq<byte>, args: seq<seq<byte>>)
    requires LBrace !in format
    ensures SprintfSpec(mode, format, args) == Ok(Copies(mode, format))
  {
    assert format[0..|format|] == format;
    NoOpenOf(format, 0, |format|);
    ScanLiteral(mode, format, args, 0, |format|, 0);
    assert ScanFrom(mode, format, args, |format|, 0) == Ok([]);
    assert Copies(mode, format) + [] == Copies(mode, format);
  }

  /** With a byte-for-byte copy, a format without `{` comes back unchanged. */
  lemma VerbatimCopiesLiterals(format: seq<byte>, args: seq<seq<byte>>)
    requires LBrace !in format
    ensures SprintfSpec(Verbatim, format, args) == Ok(format)
  {
    LiteralsCopied(Verbatim, format, args);
    CopiesVerbatim(format);
  }

  /** As written, a format without `{` comes back unchanged exactly when it is ASCII. */
  lemma AsWrittenReencodes(format: seq<byte>, args: seq<seq<byte>>)
    requires LBrace !in format
    ensures SprintfSpec(AsWritten, format, args) == Ok(format) <==> Ascii(format)
  {
    LiteralsCopied(AsWritten, format, args);
    CopiesLength(format);
    if Ascii(format) {
      CopiesAscii(AsWritten, format);
    }
  }

  /** "é" in UTF-8 is written back as the four bytes of "Ã©". */
  lemma AsWrittenCounterexample()
    ensures SprintfSpec(AsWritten, [0xC3, 0xA9], []) == Ok([0xC3, 0x83, 0xC2, 0xA9])
  {
    var f: seq<byte> := [0xC3, 0xA9];
    LiteralsCopied(AsWritten, f, []);
    assert f[1..] == [0xA9] && f[1..][1..] == [];
    assert Copies(AsWritten, [0xA9]) == [0xC2, 0xA9] + [];
    assert Copies(AsWritten, f) == [0xC3, 0x83] + [0xC2, 0xA9];
    var want: seq<byte> := [0xC3, 0x83, 0xC2, 0xA9];
    assert [0xC3, 0x83] + [0xC2, 0xA9] == want;
  }
}
