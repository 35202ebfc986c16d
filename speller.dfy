/**
 * The number speller: `Spell(n)` writes an int64 out in English words,
 * three decimal digits at a time, each non-zero group followed by its
 * scale word.
 *
 * The four word tables are package-level variables of the program; here
 * they are a `Tables` value that the operations take as a parameter, and
 * `English` holds the program's own tables.
 */
module Speller {
  import opened GoBase
  import opened GoStrings

  /** The `ones`, `teens`, `tens` and `thousands` tables. */
  datatype Tables = Tables(ones: seq<string>, teens: seq<string>, tens: seq<string>, thousands: seq<string>)

  /** The number of scale words: "", "thousand", "million", "billion". */
  const ScaleWords: nat := 4

  predicate WellSized(w: Tables) {
    |w.ones| == 10 && |w.teens| == 10 && |w.tens| == 10 && |w.thousands| == ScaleWords
  }

  const English: Tables := Tables(
    ["", "one", "two", "three", "four", "five", "six", "seven", "eight", "nine"],
    ["ten", "eleven", "twelve", "thirteen", "fourteen", "fifteen", "sixteen", "seventeen", "eighteen", "nineteen"],
    ["", "", "twenty", "thirty", "forty", "fifty", "sixty", "seventy", "eighty", "ninety"],
    ["", "thousand", "million", "billion"])

  /** Go's `-n` on an int64: two's complement, so the most negative value is its own negation. */
  function Negate64(n: int): (r: int)
    requires IsInt64(n)
    ensures IsInt64(r)
    ensures n != MinInt64 ==> r == -n
    ensures n == MinInt64 ==> r == n
  {
    if n == MinInt64 then n else -n
  }

  // ---------------------------------------------------------------------
  // spellHundreds

  /** The words `spellHundreds` joins for a number below 100. */
  function TensWords(w: Tables, t: nat): seq<string>
    requires WellSized(w) && t < 100
  {
    if t >= 20 then [if t % 10 > 0 then w.tens[t / 10] + "-" + w.ones[t % 10] else w.tens[t / 10]]
    else if t >= 10 then [w.teens[t - 10]]
    else if t > 0 then [w.ones[t]]
    else []
  }

  /** The words `spellHundreds` joins: "X hundred" when there are hundreds, then the rest below 100. */
  function HundredsWords(w: Tables, m: nat): seq<string>
    requires WellSized(w) && m < 1000
  {
    (if m >= 100 then [w.ones[m / 100] + " hundred"] else []) + TensWords(w, m % 100)
  }

  /** `spellHundreds`, proved against the word list above. */
  method SpellHundreds(w: Tables, n0: int) returns (s: string)
    requires WellSized(w) && 0 <= n0 < 1000
    ensures s == Join(HundredsWords(w, n0), " ")
  {
    var n := n0;
    var res: seq<string> := [];
    if n >= 100 {
      res := res + [w.ones[n / 100] + " hundred"];
      n := n % 100;
    }
    ghost var head := res;
    assert n == n0 % 100;
    assert head + TensWords(w, n) == HundredsWords(w, n0);
    if n >= 20 {
      res := res + [w.tens[n / 10]];
      ghost var t := n;
      n := n % 10;
      assert res[..|res| - 1] == head && res[|res| - 1] == w.tens[t / 10];
      if n > 0 {
        res := res[..|res| - 1] + [res[|res| - 1] + "-" + w.ones[n]];
        n := 0;
      }
      assert res == head + TensWords(w, t);
    }
    if n >= 10 {
      res := res + [w.teens[n - 10]];
      n := 0;
    }
    if n > 0 {
      res := res + [w.ones[n]];
    }
    assert res == HundredsWords(w, n0);
    s := Join(res, " ");
  }

  // ---------------------------------------------------------------------
  // Spell

  /** A non-zero group of three digits and the index of its scale word. */
  datatype GroupAt = GroupAt(value: nat, scale: nat)

  predicate WellScaled(gs: seq<GroupAt>) {
    forall k :: 0 <= k < |gs| ==> 0 < gs[k].value < 1000 && gs[k].scale < ScaleWords
  }

  /**
   * The non-zero groups of `m`, from scale index `i` upwards, most significant
   * first; None when a non-zero group has no scale word, where `thousands[i]`
   * is indexed out of range.
   */
  function GroupsFrom(m: nat, i: nat): (r: Option<seq<GroupAt>>)
    ensures r.Some? ==> WellScaled(r.value)
    decreases m
  {
    if m == 0 then Some([])
    else if m % 1000 != 0 && i >= ScaleWords then None
    else
      match GroupsFrom(m / 1000, i + 1)
      case None => None
      case Some(above) => Some(above + (if m % 1000 != 0 then [GroupAt(m % 1000, i)] else []))
  }

  /** The part `Spell` builds for one group: its words, a space, and its scale word. */
  function Part(w: Tables, g: GroupAt): string
    requires WellSized(w) && 0 < g.value < 1000 && g.scale < ScaleWords
  {
    Join(HundredsWords(w, g.value), " ") + " " + w.thousands[g.scale]
  }

  function Render(w: Tables, gs: seq<GroupAt>): (parts: seq<string>)
    requires WellSized(w) && WellScaled(gs)
    ensures |parts| == |gs|
  {
    if gs == [] then [] else [Part(w, gs[0])] + Render(w, gs[1..])
  }

  /** The magnitude `Spell`'s loop starts from: Go's `-n` for negative input. */
  function Magnitude(n: int): int
    requires IsInt64(n)
  {
    if n < 0 then Negate64(n) else n
  }

  function SignPrefix(n: int): string {
    if n < 0 then "minus " else ""
  }

  /** The groups the loop visits; none when it does not run. */
  function AllGroups(m: int): (r: Option<seq<GroupAt>>)
    ensures r.Some? ==> WellScaled(r.value)
  {
    if m > 0 then GroupsFrom(m, 0) else Some([])
  }

  /** What `Spell` returns: Panic stands for the index-out-of-range panic. */
  function SpellSpec(w: Tables, n: int): Outcome<string>
    requires WellSized(w) && IsInt64(n)
  {
    if n == 0 then Ok("zero")
    else
      match AllGroups(Magnitude(n))
      case None => Panic
      case Some(gs) => Ok(SignPrefix(n) + TrimSpace(Join(Render(w, gs), " ")))
  }

  /** The groups still to come, given the loop's remaining magnitude, its scale index and the groups so far. */
  function Pending(n: int, i: nat, gs: seq<GroupAt>): Option<seq<GroupAt>> {
    if n > 0 then
      match GroupsFrom(n, i)
      case None => None
      case Some(above) => Some(above + gs)
    else Some(gs)
  }

  lemma PendingStep(n: int, i: nat, before: seq<GroupAt>, after: seq<GroupAt>)
    requires n > 0 && (n % 1000 == 0 || i < ScaleWords)
    requires after == (if n % 1000 != 0 then [GroupAt(n % 1000, i)] else []) + before
    ensures Pending(n, i, before) == Pending(n / 1000, i + 1, after)
  {
    match GroupsFrom(n / 1000, i + 1)
    case None =>
    case Some(above) =>
      var mine := if n % 1000 != 0 then [GroupAt(n % 1000, i)] else [];
      assert GroupsFrom(n, i) == Some(above + mine);
      assert (above + mine) + before == above + after;
      if n / 1000 == 0 {
        assert above == [];
        assert above + after == after;
      }
  }

  lemma SpellSpecOk(w: Tables, n: int, gs: seq<GroupAt>)
    requires WellSized(w) && IsInt64(n) && n != 0 && AllGroups(Magnitude(n)) == Some(gs)
    ensures SpellSpec(w, n) == Ok(SignPrefix(n) + TrimSpace(Join(Render(w, gs), " ")))
  {
  }

  lemma SpellSpecPanics(w: Tables, n: int)
    requires WellSized(w) && IsInt64(n) && n != 0 && AllGroups(Magnitude(n)) == None
    ensures SpellSpec(w, n) == Panic
  {
  }

  /** Before the loop, every group of the magnitude is still pending. */
  lemma SpellStart(n: int)
    ensures Pending(n, 0, []) == AllGroups(n)
  {
    if n > 0 && GroupsFrom(n, 0).Some? {
      assert GroupsFrom(n, 0).value + [] == GroupsFrom(n, 0).value;
    }
  }

  /** Prepending the part of a new group keeps the parts equal to the rendering of the groups. */
  lemma PartsStep(w: Tables, h: string, g: GroupAt, before: seq<GroupAt>, parts: seq<string>)
    requires WellSized(w) && WellScaled(before) && parts == Render(w, before)
    requires 0 < g.value < 1000 && g.scale < ScaleWords
    requires h == Join(HundredsWords(w, g.value), " ")
    ensures WellScaled([g] + before) && [h + " " + w.thousands[g.scale]] + parts == Render(w, [g] + before)
  {
    assert ([g] + before)[1..] == before;
  }

  /** The parts the loop of `Spell` builds for magnitude `m`; Panic where the scale word is missing. */
  function PartsFor(w: Tables, m: int): Outcome<seq<string>>
    requires WellSized(w)
  {
    match AllGroups(m)
    case None => Panic
    case Some(gs) => Ok(Render(w, gs))
  }

  /** SpellSpec in terms of the parts: the sign, then the trimmed parts joined by spaces. */
  lemma SpellSpecParts(w: Tables, n: int)
    requires WellSized(w) && IsInt64(n) && n != 0
    ensures PartsFor(w, Magnitude(n)).Panic? ==> SpellSpec(w, n) == Panic
    ensures PartsFor(w, Magnitude(n)).Ok? ==>
      SpellSpec(w, n) == Ok(SignPrefix(n) + TrimSpace(Join(PartsFor(w, Magnitude(n)).value, " ")))
  {
  }

  /** The loop of `Spell`: one part per non-zero group, the most significant first. */
  method SpellParts(w: Tables, m: int) returns (r: Outcome<seq<string>>)
    requires WellSized(w)
    ensures r == PartsFor(w, m)
  {
    var n := m;
    SpellStart(n);
    ghost var gs: seq<GroupAt> := [];
    var parts: seq<string> := [];
    var i := 0;
    while n > 0
      invariant Pending(n, i, gs) == AllGroups(m)
      invariant WellScaled(gs) && parts == Render(w, gs)
      decreases if n > 0 then n else 0
    {
      ghost var before := gs;
      if n % 1000 != 0 {
        if i >= |w.thousands| {
          return Panic;
        }
        var h := SpellHundreds(w, n % 1000);
        PartsStep(w, h, GroupAt(n % 1000, i), gs, parts);
        parts := [h + " " + w.thousands[i]] + parts;
        gs := [GroupAt(n % 1000, i)] + gs;
      }
      PendingStep(n, i, before, gs);
      n := n / 1000;
      i := i + 1;
    }
    return Ok(parts);
  }

  /** `Spell`, proved against SpellSpec. */
  method Spell(w: Tables, n0: int) returns (r: Outcome<string>)
    requires WellSized(w) && IsInt64(n0)
    ensures r == SpellSpec(w, n0)
  {
    if n0 == 0 {
      return Ok("zero");
    }
    var res := "";
    var n := n0;
    if n < 0 {
      res := res + "minus ";
      n := Negate64(n);
    }
    assert res == SignPrefix(n0) && n == Magnitude(n0);
    SpellSpecParts(w, n0);
    var parts := SpellParts(w, n);
    match parts
    case Panic =>
      return Panic;
    case Ok(ps) =>
      res := res + TrimSpace(Join(ps, " "));
      return Ok(res);
  }

  // ---------------------------------------------------------------------
  // What the speller promises

  /** The number zero is spelled as the single word "zero". */
  lemma SpellZero(w: Tables)
    requires WellSized(w)
    ensures SpellSpec(w, 0) == Ok("zero")
  {
  }

  /** A negative number other than the most negative int64 is "minus " and the spelling of its magnitude. */
  lemma SpellNegative(w: Tables, n: int)
    requires WellSized(w) && IsInt64(n) && n < 0 && n != MinInt64
    ensures SpellSpec(w, -n).Panic? ==> SpellSpec(w, n).Panic?
    ensures SpellSpec(w, -n).Ok? ==> SpellSpec(w, n) == Ok("minus " + SpellSpec(w, -n).value)
  {
    var m := -n;
    assert IsInt64(m) && Magnitude(n) == m == Magnitude(m);
    match AllGroups(m)
    case None =>
      SpellSpecPanics(w, n);
      SpellSpecPanics(w, m);
    case Some(gs) =>
      var t := TrimSpace(Join(Render(w, gs), " "));
      SpellSpecOk(w, n, gs);
      SpellSpecOk(w, m, gs);
      assert SignPrefix(m) + t == t;
  }

  /** The negation of the most negative int64 overflows, the loop never runs, and only the sign is written. */
  lemma SpellMinInt64(w: Tables)
    requires WellSized(w)
    ensures SpellSpec(w, MinInt64) == Ok("minus ")
  {
    assert Magnitude(MinInt64) == MinInt64;
    assert AllGroups(MinInt64) == Some([]);
    assert TrimSpace(Join(Render(w, []), " ")) == [];
    assert "minus " + [] == "minus ";
  }

  /** The k-th group of three decimal digits, counting from the least significant. */
  function Group(m: nat, k: nat): (g: nat)
    ensures g < 1000
  {
    if k == 0 then m % 1000 else Group(m / 1000, k - 1)
  }

  /** A group with its scale index, or nothing when all three digits are zero. */
  function NonZero(g: nat, k: nat): seq<GroupAt> {
    if g != 0 then [GroupAt(g, k)] else []
  }

  /** The smallest magnitude whose groups from scale index `i` upwards run past the scale words. */
  function ScaleLimit(i: nat): (l: nat)
    ensures l >= 1
    decreases ScaleWords - i
  {
    if i >= ScaleWords then 1 else 1000 * ScaleLimit(i + 1)
  }

  lemma ScaleLimitZero()
    ensures ScaleLimit(0) == 1_000_000_000_000
  {
    assert ScaleLimit(4) == 1;
    assert ScaleLimit(3) == 1000;
    assert ScaleLimit(2) == 1_000_000;
    assert ScaleLimit(1) == 1_000_000_000;
  }

  lemma DivAtLeast(m: nat, l: nat)
    ensures m / 1000 >= l <==> m >= 1000 * l
  {
    var q, r := m / 1000, m % 1000;
    assert m == 1000 * q + r && 0 <= r < 1000;
    if q >= l {
      assert 1000 * q >= 1000 * l;
    } else {
      assert q + 1 <= l;
      assert 1000 * (q + 1) <= 1000 * l;
    }
  }

  /** The groups from scale index `i` upwards overflow the scale words exactly when `m` reaches ScaleLimit(i). */
  lemma {:induction false} GroupsFromPanics(m: nat, i: nat)
    ensures GroupsFrom(m, i).None? <==> m >= ScaleLimit(i)
    decreases m
  {
    if m == 0 || (m % 1000 != 0 && i >= ScaleWords) {
    } else {
      GroupsFromPanics(m / 1000, i + 1);
      if i < ScaleWords {
        DivAtLeast(m, ScaleLimit(i + 1));
      } else {
        DivAtLeast(m, 1);
      }
    }
  }

  /** `Spell` panics exactly for the magnitudes of 10^12 and above, except the most negative int64. */
  lemma SpellDomain(w: Tables, n: int)
    requires WellSized(w) && IsInt64(n)
    ensures SpellSpec(w, n).Panic? <==> n != MinInt64 && (n >= 1_000_000_000_000 || n <= -1_000_000_000_000)
  {
    ScaleLimitZero();
    if n != 0 && n != MinInt64 {
      GroupsFromPanics(Magnitude(n), 0);
    }
  }

  /** One level of GroupsFrom while a scale word is left: the groups above, then this one if it is non-zero. */
  lemma GroupsFromStep(m: nat, i: nat)
    requires i < ScaleWords
    ensures GroupsFrom(m, i) ==
      match GroupsFrom(m / 1000, i + 1)
      case None => None
      case Some(above) => Some(above + NonZero(m % 1000, i))
  {
    if m == 0 {
      assert GroupsFrom(0, i + 1) == Some([]);
      assert [] + NonZero(0, i) == [];
    }
  }

  /**
   * Below 10^12 the groups are the four three-digit blocks of `m`, most
   * significant first, each with its scale index, all-zero blocks left out.
   */
  lemma GroupsMostSignificantFirst(m: nat)
    requires m < 1_000_000_000_000
    ensures GroupsFrom(m, 0) ==
      Some(NonZero(Group(m, 3), 3) + NonZero(Group(m, 2), 2) + NonZero(Group(m, 1), 1) + NonZero(Group(m, 0), 0))
  {
    var q1 := m / 1000;
    var q2 := q1 / 1000;
    var q3 := q2 / 1000;
    DivAtLeast(m, 1_000_000_000);
    DivAtLeast(q1, 1_000_000);
    DivAtLeast(q2, 1000);
    DivAtLeast(q3, 1);
    assert q3 / 1000 == 0;
    assert Group(m, 1) == q1 % 1000;
    assert Group(m, 2) == Group(q1, 1) == q2 % 1000;
    assert Group(m, 3) == Group(q1, 2) == Group(q2, 1) == q3 % 1000;
    GroupsFromStep(q3, 3);
    assert GroupsFrom(q3, 3) == Some(NonZero(q3 % 1000, 3)) by {
      assert GroupsFrom(q3 / 1000, 4) == Some([]);
      assert [] + NonZero(q3 % 1000, 3) == NonZero(q3 % 1000, 3);
    }
    GroupsFromStep(q2, 2);
    GroupsFromStep(q1, 1);
    GroupsFromStep(m, 0);
  }

  /** Text with no white space at either end. */
  predicate Unpadded(s: string) {
    s != [] && !IsSpace(s[0]) && !IsSpace(s[|s| - 1])
  }

  /** Tables whose words are non-empty and unpadded wherever `Spell` uses them. */
  predicate Wordy(w: Tables)
    requires WellSized(w)
  {
    && (forall d :: 1 <= d < 10 ==> Unpadded(w.ones[d]))
    && (forall d :: 0 <= d < 10 ==> Unpadded(w.teens[d]))
    && (forall d :: 2 <= d < 10 ==> Unpadded(w.tens[d]))
    && (forall k :: 1 <= k < ScaleWords ==> Unpadded(w.thousands[k]))
  }

  /** A lower-case word: non-empty, and neither end is white space. */
  lemma LowerUnpadded(s: string)
    requires s != [] && 'a' <= s[0] <= 'z' && 'a' <= s[|s| - 1] <= 'z'
    ensures Unpadded(s)
  {
  }

  /** The program's tables have the sizes `Spell` indexes and unpadded words. */
  lemma EnglishTables()
    ensures WellSized(English) && Wordy(English)
  {
    var w := English;
    forall d | 1 <= d < 10 ensures Unpadded(w.ones[d]) {
      LowerUnpadded(w.ones[d]);
    }
    forall d | 0 <= d < 10 ensures Unpadded(w.teens[d]) {
      LowerUnpadded(w.teens[d]);
    }
    forall d | 2 <= d < 10 ensures Unpadded(w.tens[d]) {
      LowerUnpadded(w.tens[d]);
    }
    forall k | 1 <= k < ScaleWords ensures Unpadded(w.thousands[k]) {
      LowerUnpadded(w.thousands[k]);
    }
  }

  /** A number in 1..99 is one word, non-empty and unpadded. */
  lemma TensWordsUnpadded(w: Tables, t: nat)
    requires WellSized(w) && Wordy(w) && 0 < t < 100
    ensures |TensWords(w, t)| == 1 && Unpadded(TensWords(w, t)[0])
  {
    if t >= 20 && t % 10 > 0 {
      var x := w.tens[t / 10] + "-" + w.ones[t % 10];
      assert x[0] == w.tens[t / 10][0] && x[|x| - 1] == w.ones[t % 10][|w.ones[t % 10]| - 1];
    }
  }

  /** `spellHundreds` joins one or two words for 1..999, each non-empty and unpadded. */
  lemma HundredsWordsUnpadded(w: Tables, m: nat)
    requires WellSized(w) && Wordy(w) && 0 < m < 1000
    ensures 1 <= |HundredsWords(w, m)| <= 2
    ensures forall k :: 0 <= k < |HundredsWords(w, m)| ==> Unpadded(HundredsWords(w, m)[k])
  {
    if m % 100 > 0 {
      TensWordsUnpadded(w, m % 100);
    }
    if m >= 100 {
      var x := w.ones[m / 100] + " hundred";
      assert x[0] == w.ones[m / 100][0] && x[|x| - 1] == 'd';
    }
  }

  lemma JoinUnpadded(parts: seq<string>, sep: string)
    requires parts != [] && forall k :: 0 <= k < |parts| ==> Unpadded(parts[k])
    ensures Unpadded(Join(parts, sep))
    decreases |parts|
  {
    if |parts| > 1 {
      JoinUnpadded(parts[1..], sep);
    }
  }

  /** Each part `Spell` builds starts with a word and ends with its scale word, which is empty for units. */
  lemma PartShape(w: Tables, g: GroupAt)
    requires WellSized(w) && Wordy(w) && 0 < g.value < 1000 && g.scale < ScaleWords
    ensures Part(w, g) != [] && !IsSpace(Part(w, g)[0])
    ensures g.scale > 0 ==> !IsSpace(Part(w, g)[|Part(w, g)| - 1])
  {
    HundredsWordsUnpadded(w, g.value);
    JoinUnpadded(HundredsWords(w, g.value), " ");
  }

  /**
   * What `Spell` returns never starts with white space, and never ends with
   * it either unless it is the bare sign written for the most negative int64.
   */
  lemma SpellHasNoOuterSpace(w: Tables, n: int)
    requires WellSized(w) && Wordy(w) && IsInt64(n) && SpellSpec(w, n).Ok?
    ensures SpellSpec(w, n).value != [] && !IsSpace(SpellSpec(w, n).value[0])
    ensures n != MinInt64 ==> !IsSpace(SpellSpec(w, n).value[|SpellSpec(w, n).value| - 1])
  {
    if n == MinInt64 {
      SpellMinInt64(w);
    } else if n != 0 {
      SpelledNoOuterSpace(w, n, AllGroups(Magnitude(n)).value);
    }
  }

  lemma SpelledNoOuterSpace(w: Tables, n: int, gs: seq<GroupAt>)
    requires WellSized(w) && Wordy(w) && IsInt64(n) && n != 0 && n != MinInt64
    requires AllGroups(Magnitude(n)) == Some(gs)
    ensures SpellSpec(w, n).Ok? && Unpadded(SpellSpec(w, n).value)
  {
    SpellSpecOk(w, n, gs);
    GroupsNonEmpty(Magnitude(n), 0);
    RenderedUnpadded(w, gs);
    SignedUnpadded(SignPrefix(n), TrimSpace(Join(Render(w, gs), " ")));
  }

  /** The sign followed by unpadded words is unpadded. */
  lemma SignedUnpadded(sign: string, s: string)
    requires sign == "" || sign == "minus "
    requires Unpadded(s)
    ensures Unpadded(sign + s)
  {
    var t := sign + s;
    assert t[|t| - 1] == s[|s| - 1];
    assert t[0] == (if sign == "" then s[0] else 'm');
  }

  /** Some group is spelled, so trimming the joined parts leaves unpadded text. */
  lemma RenderedUnpadded(w: Tables, gs: seq<GroupAt>)
    requires WellSized(w) && Wordy(w) && WellScaled(gs) && gs != []
    ensures Unpadded(TrimSpace(Join(Render(w, gs), " ")))
  {
    var parts := Render(w, gs);
    PartShape(w, gs[0]);
    assert parts[0] == Part(w, gs[0]);
    JoinHead(parts, " ");
    TrimSpaceNonEmpty(Join(parts, " "), 0);
    TrimSpaceTrims(Join(parts, " "));
  }

  /** Joining keeps the first character of the first part. */
  lemma JoinHead(parts: seq<string>, sep: string)
    requires parts != [] && parts[0] != []
    ensures Join(parts, sep) != [] && Join(parts, sep)[0] == parts[0][0]
  {
  }

  /** A positive magnitude always has a non-zero group, unless its groups overflow. */
  lemma {:induction false} GroupsNonEmpty(m: nat, i: nat)
    requires m > 0 && GroupsFrom(m, i).Some?
    ensures GroupsFrom(m, i).value != []
    decreases m
  {
    if m % 1000 == 0 {
      GroupsNonEmpty(m / 1000, i + 1);
    }
  }

  /** m million, for 0 < m < 1000, has one group, at the scale of "million". */
  lemma MillionsGroups(m: nat)
    requires 0 < m < 1000
    ensures AllGroups(m * 1_000_000) == Some([GroupAt(m, 2)])
  {
    var n := m * 1_000_000;
    var gs := [GroupAt(m, 2)];
    assert n % 1000 == 0 && n / 1000 == m * 1000;
    assert (m * 1000) % 1000 == 0 && (m * 1000) / 1000 == m;
    assert m % 1000 == m && m / 1000 == 0;
    GroupsFromStep(m, 2);
    assert GroupsFrom(0, 3) == Some([]);
    assert NonZero(m, 2) == gs && [] + gs == gs;
    assert GroupsFrom(m, 2) == Some(gs);
    GroupsFromStep(m * 1000, 1);
    assert NonZero(0, 1) == [] && gs + [] == gs;
    assert GroupsFrom(m * 1000, 1) == Some(gs);
    GroupsFromStep(n, 0);
  }

  /** Zero groups are skipped: m million with 0 < m < 1000 is m's words, a space and the scale word. */
  lemma SpellMillions(w: Tables, m: nat)
    requires WellSized(w) && Wordy(w) && 0 < m < 1000
    ensures SpellSpec(w, m * 1_000_000) == Ok(Join(HundredsWords(w, m), " ") + " " + w.thousands[2])
  {
    var n := m * 1_000_000;
    var gs := [GroupAt(m, 2)];
    MillionsGroups(m);
    SpellSpecOk(w, n, gs);
    var s := Part(w, gs[0]);
    assert Render(w, gs) == [s];
    HundredsWordsUnpadded(w, m);
    JoinUnpadded(HundredsWords(w, m), " ");
    assert s[0] == Join(HundredsWords(w, m), " ")[0] && s[|s| - 1] == w.thousands[2][|w.thousands[2]| - 1];
    TrimSpaceUnchanged(s);
    assert SignPrefix(n) + s == s;
  }
}
