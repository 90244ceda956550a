/**
 * The JavaScript string operations the calendar relies on, over a finite
 * alphabet: ASCII, plus the Latin-1 letters for case only; decomposition
 * covers the Spanish accented letters and ñ, so other accented letters
 * (such as à) keep their accent.
 *
 * `Normalize` is the event-type normalization used by the converter, the
 * calendar, the list view and the day cell: lower-case, canonical
 * decomposition (NFD), removal of the combining marks U+0300..U+036F, trim.
 */
module Text {

  // ------------------------------------------------------------------ white space

  /** The white space and line terminators that String.prototype.trim removes. */
  predicate IsJsSpace(c: char) {
    || c == '\t' || c == '\n' || c == '\U{B}' || c == '\U{C}' || c == '\r' || c == ' '
    || c == '\U{A0}' || c == '\U{1680}' || ('\U{2000}' <= c <= '\U{200A}')
    || c == '\U{2028}' || c == '\U{2029}' || c == '\U{202F}' || c == '\U{205F}'
    || c == '\U{3000}' || c == '\U{FEFF}'
  }

  /** Neither end of `s` is white space. */
  predicate IsTrimmed(s: string) {
    s == [] || (!IsJsSpace(s[0]) && !IsJsSpace(s[|s| - 1]))
  }

  /** Drops the longest white-space prefix. */
  function TrimStart(s: string): (r: string)
    ensures |r| <= |s| && r == s[|s| - |r|..]
    ensures r == [] || !IsJsSpace(r[0])
    ensures forall i :: 0 <= i < |s| - |r| ==> IsJsSpace(s[i])
  {
    if s != [] && IsJsSpace(s[0]) then TrimStart(s[1..]) else s
  }

  /** Drops the longest white-space suffix. */
  function TrimEnd(s: string): (r: string)
    ensures |r| <= |s| && r == s[..|r|]
    ensures r == [] || !IsJsSpace(r[|r| - 1])
    ensures forall i :: |r| <= i < |s| ==> IsJsSpace(s[i])
  {
    if s != [] && IsJsSpace(s[|s| - 1]) then TrimEnd(s[..|s| - 1]) else s
  }

  /** String.prototype.trim. */
  function Trim(s: string): (r: string)
    ensures IsTrimmed(r)
    ensures forall c :: c in r ==> c in s
    ensures IsTrimmed(s) ==> r == s
    ensures exists i, j :: 0 <= i <= j <= |s| && r == s[i..j] && IsBlank(s[..i]) && IsBlank(s[j..])
  {
    var t := TrimStart(s);
    var r := TrimEnd(t);
    assert forall c :: c in r ==> c in t;
    TrimSlice(s, t, r);
    r
  }

  /** Trimming cuts a blank prefix and a blank suffix off the string. */
  lemma TrimSlice(s: string, t: string, r: string)
    requires |t| <= |s| && t == s[|s| - |t|..] && forall k :: 0 <= k < |s| - |t| ==> IsJsSpace(s[k])
    requires |r| <= |t| && r == t[..|r|] && forall k :: |r| <= k < |t| ==> IsJsSpace(t[k])
    ensures exists i, j :: 0 <= i <= j <= |s| && r == s[i..j] && IsBlank(s[..i]) && IsBlank(s[j..])
  {
    var i := |s| - |t|;
    var j := i + |r|;
    assert r == s[i..j] && s[j..] == t[|r|..] by {
      SliceOfSlice(s, i, |r|);
    }
    assert IsBlank(s[..i]);
    assert IsBlank(t[|r|..]);
  }

  /** A slice of a suffix is a slice of the whole. */
  lemma SliceOfSlice<T>(s: seq<T>, i: nat, n: nat)
    requires i + n <= |s|
    ensures s[i..][..n] == s[i..i + n] && s[i..][n..] == s[i + n..]
  {
  }

  /** Every character is white space. */
  predicate IsBlank(s: string) {
    forall i :: 0 <= i < |s| ==> IsJsSpace(s[i])
  }

  /** Trimming leaves nothing exactly when the string is all white space. */
  lemma TrimBlank(s: string)
    ensures Trim(s) == [] <==> IsBlank(s)
  {
  }

  lemma {:induction false} TrimIdempotent(s: string)
    ensures Trim(Trim(s)) == Trim(s)
  {
  }

  // ------------------------------------------------------------------ case

  /** The upper-case letters that String.prototype.toLowerCase changes within the model's alphabet. */
  predicate IsUpper(c: char) {
    ('A' <= c <= 'Z') || ('\U{C0}' <= c <= '\U{DE}' && c != '\U{D7}')
  }

  function LowerChar(c: char): (r: char)
    ensures !IsUpper(r)
    ensures !IsUpper(c) ==> r == c
  {
    if IsUpper(c) then (c as int + 32) as char else c
  }

  /** String.prototype.toLowerCase over the model's alphabet. */
  function Lower(s: string): (r: string)
    ensures |r| == |s|
    ensures forall c :: c in r ==> !IsUpper(c)
    ensures (forall c :: c in s ==> !IsUpper(c)) ==> r == s
    ensures forall i :: 0 <= i < |s| ==>
      if IsUpper(s[i]) then r[i] as int == s[i] as int + 32 else r[i] == s[i]
  {
    seq(|s|, i requires 0 <= i < |s| => LowerChar(s[i]))
  }

  // ------------------------------------------------------------------ canonical decomposition

  const Acute: char := '\U{301}'
  const Tilde: char := '\U{303}'
  const Diaeresis: char := '\U{308}'

  /** The characters of the range U+0300..U+036F that the normalization removes. */
  predicate IsCombiningMark(c: char) {
    '\U{300}' <= c <= '\U{36F}'
  }

  /** The Spanish letters that have a canonical decomposition. */
  predicate IsPrecomposed(c: char) {
    || c == 'á' || c == 'é' || c == 'í' || c == 'ó' || c == 'ú' || c == 'ü' || c == 'ñ'
    || c == 'Á' || c == 'É' || c == 'Í' || c == 'Ó' || c == 'Ú' || c == 'Ü' || c == 'Ñ'
  }

  /** The canonical decomposition of one character: a base letter followed by its mark. */
  function Decompose(c: char): (r: string)
    ensures IsPrecomposed(c) ==> |r| == 2 && !IsPrecomposed(r[0]) && IsCombiningMark(r[1])
    ensures !IsPrecomposed(c) ==> r == [c]
    ensures !IsUpper(c) ==> forall d :: d in r ==> !IsUpper(d)
  {
    if c == 'á' then ['a', Acute]
    else if c == 'é' then ['e', Acute]
    else if c == 'í' then ['i', Acute]
    else if c == 'ó' then ['o', Acute]
    else if c == 'ú' then ['u', Acute]
    else if c == 'ü' then ['u', Diaeresis]
    else if c == 'ñ' then ['n', Tilde]
    else if c == 'Á' then ['A', Acute]
    else if c == 'É' then ['E', Acute]
    else if c == 'Í' then ['I', Acute]
    else if c == 'Ó' then ['O', Acute]
    else if c == 'Ú' then ['U', Acute]
    else if c == 'Ü' then ['U', Diaeresis]
    else if c == 'Ñ' then ['N', Tilde]
    else [c]
  }

  /** String.prototype.normalize("NFD") over the model's alphabet. */
  function Nfd(s: string): string {
    if s == [] then [] else Decompose(s[0]) + Nfd(s[1..])
  }

  /** The replacement of every U+0300..U+036F character by nothing. */
  function StripMarks(s: string): string {
    if s == [] then []
    else if IsCombiningMark(s[0]) then StripMarks(s[1..])
    else [s[0]] + StripMarks(s[1..])
  }

  lemma {:induction false} NfdConcat(a: string, b: string)
    ensures Nfd(a + b) == Nfd(a) + Nfd(b)
  {
    if a == [] {
      assert a + b == b;
    } else {
      var head, rest := Decompose(a[0]), a[1..];
      assert (a + b)[0] == a[0] && (a + b)[1..] == rest + b;
      assert Nfd(a + b) == head + Nfd(rest + b);
      NfdConcat(rest, b);
      assert head + (Nfd(rest) + Nfd(b)) == (head + Nfd(rest)) + Nfd(b);
    }
  }

  lemma {:induction false} StripMarksConcat(a: string, b: string)
    ensures StripMarks(a + b) == StripMarks(a) + StripMarks(b)
  {
    if a == [] {
      assert a + b == b;
    } else {
      assert (a + b)[0] == a[0] && (a + b)[1..] == a[1..] + b;
      StripMarksConcat(a[1..], b);
      if !IsCombiningMark(a[0]) {
        calc {
          StripMarks(a + b);
          [a[0]] + StripMarks(a[1..] + b);
          [a[0]] + (StripMarks(a[1..]) + StripMarks(b));
          ([a[0]] + StripMarks(a[1..])) + StripMarks(b);
        }
      }
    }
  }

  /** NFD leaves no precomposed letter, adds no upper-case letter and is the identity on decomposed text. */
  lemma NfdProperties(s: string)
    ensures forall c :: c in Nfd(s) ==> !IsPrecomposed(c)
    ensures (forall c :: c in s ==> !IsUpper(c)) ==> forall c :: c in Nfd(s) ==> !IsUpper(c)
    ensures (forall c :: c in s ==> !IsPrecomposed(c)) ==> Nfd(s) == s
  {
    NfdDecomposes(s);
    if forall c :: c in s ==> !IsUpper(c) {
      NfdKeepsLower(s);
    }
    if forall c :: c in s ==> !IsPrecomposed(c) {
      NfdFixesDecomposed(s);
    }
  }

  lemma {:induction false} NfdDecomposes(s: string)
    ensures forall c :: c in Nfd(s) ==> !IsPrecomposed(c)
  {
    if s != [] {
      NfdDecomposes(s[1..]);
      var d := Decompose(s[0]);
      assert Nfd(s) == d + Nfd(s[1..]);
      assert forall c :: c in d ==> !IsPrecomposed(c);
    }
  }

  lemma {:induction false} NfdKeepsLower(s: string)
    requires forall c :: c in s ==> !IsUpper(c)
    ensures forall c :: c in Nfd(s) ==> !IsUpper(c)
  {
    if s != [] {
      assert s[0] in s;
      assert forall c :: c in s[1..] ==> c in s;
      NfdKeepsLower(s[1..]);
      assert Nfd(s) == Decompose(s[0]) + Nfd(s[1..]);
    }
  }

  lemma {:induction false} NfdFixesDecomposed(s: string)
    requires forall c :: c in s ==> !IsPrecomposed(c)
    ensures Nfd(s) == s
  {
    if s != [] {
      assert s[0] in s;
      assert forall c :: c in s[1..] ==> c in s;
      NfdFixesDecomposed(s[1..]);
      assert s == [s[0]] + s[1..];
    }
  }

  /** The strip keeps only characters of its input outside U+0300..U+036F, and all of them when there is none. */
  lemma {:induction false} StripMarksProperties(s: string)
    ensures forall c :: c in StripMarks(s) ==> c in s && !IsCombiningMark(c)
    ensures (forall c :: c in s ==> !IsCombiningMark(c)) ==> StripMarks(s) == s
  {
    StripMarksKeeps(s);
    if forall c :: c in s ==> !IsCombiningMark(c) {
      StripMarksFixesPlain(s);
    }
  }

  lemma {:induction false} StripMarksKeeps(s: string)
    ensures forall c :: c in StripMarks(s) ==> c in s && !IsCombiningMark(c)
  {
    if s != [] {
      StripMarksKeeps(s[1..]);
      assert forall c :: c in s[1..] ==> c in s;
    }
  }

  lemma {:induction false} StripMarksFixesPlain(s: string)
    requires forall c :: c in s ==> !IsCombiningMark(c)
    ensures StripMarks(s) == s
  {
    if s != [] {
      assert s[0] in s;
      assert forall c :: c in s[1..] ==> c in s;
      StripMarksFixesPlain(s[1..]);
      assert s == [s[0]] + s[1..];
    }
  }

  // ------------------------------------------------------------------ type normalization

  /** A string that the type normalization leaves as it is. */
  predicate InNormalForm(t: string) {
    && IsTrimmed(t)
    && forall c :: c in t ==> !IsUpper(c) && !IsPrecomposed(c) && !IsCombiningMark(c)
  }

  /**
   * The event-type normalization: lower-case, NFD, strip U+0300..U+036F, trim.
   * Its result is in normal form, so it no longer holds an accented letter.
   */
  function Normalize(s: string): (r: string)
    ensures InNormalForm(r)
  {
    var lowered := Lower(s);
    NfdProperties(lowered);
    StripMarksProperties(Nfd(lowered));
    Trim(StripMarks(Nfd(lowered)))
  }

  /** A word of lower-case ASCII letters is in normal form. */
  lemma LowerAsciiIsNormal(t: string)
    requires forall i :: 0 <= i < |t| ==> 'a' <= t[i] <= 'z'
    ensures InNormalForm(t)
  {
    forall c | c in t
      ensures !IsUpper(c) && !IsPrecomposed(c) && !IsCombiningMark(c)
    {
      var i :| 0 <= i < |t| && t[i] == c;
    }
  }

  /** A string in normal form is a fixed point of the normalization. */
  lemma NormalFormIsFixed(t: string)
    requires InNormalForm(t)
    ensures Normalize(t) == t
  {
    assert Lower(t) == t;
    NfdProperties(t);
    StripMarksProperties(t);
  }

  /** Normalizing twice is normalizing once. */
  lemma NormalizeIdempotent(s: string)
    ensures Normalize(Normalize(s)) == Normalize(s)
  {
    NormalFormIsFixed(Normalize(s));
  }

  /** A plain part, a precomposed letter, a plain part: NFD expands only the letter. */
  lemma NfdOneAccent(a: string, c: char, b: string)
    requires forall x :: x in a ==> !IsPrecomposed(x)
    requires forall x :: x in b ==> !IsPrecomposed(x)
    ensures Nfd(a + [c] + b) == a + Decompose(c) + b
  {
    NfdConcat(a + [c], b);
    NfdConcat(a, [c]);
    NfdFixesDecomposed(a);
    NfdFixesDecomposed(b);
    NfdSingle(c);
  }

  lemma NfdSingle(c: char)
    ensures Nfd([c]) == Decompose(c)
  {
    assert [c][1..] == [];
  }

  /** A plain part, a base letter and its mark, a plain part: the strip drops only the mark. */
  lemma StripOneMark(a: string, base: char, mark: char, b: string)
    requires forall x :: x in a ==> !IsCombiningMark(x)
    requires forall x :: x in b ==> !IsCombiningMark(x)
    requires !IsCombiningMark(base) && IsCombiningMark(mark)
    ensures StripMarks(a + [base, mark] + b) == a + [base] + b
  {
    assert a + [base, mark] + b == a + [base] + ([mark] + b);
    StripMarksConcat(a + [base], [mark] + b);
    StripMarksConcat(a, [base]);
    StripMarksFixesPlain(a);
    StripMarksFixesPlain(b);
    assert [base][1..] == [];
    assert StripMarks([base]) == [base];
    var mb := [mark] + b;
    assert mb[0] == mark && mb[1..] == b;
    assert StripMarks(mb) == b;
  }

  /**
   * Normalizing a word with one accented lower-case letter `c` between two
   * plain parts replaces that letter by its base letter.
   */
  lemma NormalizeOneAccent(a: string, c: char, b: string)
    requires a != [] && b != [] && InNormalForm(a) && InNormalForm(b)
    requires IsPrecomposed(c) && !IsUpper(c)
    ensures Normalize(a + [c] + b) == a + [Decompose(c)[0]] + b
  {
    var s := a + [c] + b;
    var d := Decompose(c);
    var r := a + [d[0]] + b;
    assert Lower(s) == s by {
      assert forall x :: x in s ==> !IsUpper(x);
    }
    assert Nfd(s) == a + [d[0], d[1]] + b by {
      NfdOneAccent(a, c, b);
      assert d == [d[0], d[1]];
    }
    assert StripMarks(a + [d[0], d[1]] + b) == r by {
      StripOneMark(a, d[0], d[1], b);
    }
    assert IsTrimmed(r) by {
      assert r[0] == a[0] && r[|r| - 1] == b[|b| - 1];
    }
  }

  // ------------------------------------------------------------------ digits and numbers

  predicate IsDigit(c: char) {
    '0' <= c <= '9'
  }

  predicate AllDigits(s: string) {
    forall i :: 0 <= i < |s| ==> IsDigit(s[i])
  }

  function DigitChar(d: nat): (c: char)
    requires d < 10
    ensures IsDigit(c)
  {
    ('0' as int + d) as char
  }

  function DigitValue(c: char): (d: nat)
    requires IsDigit(c)
    ensures d < 10 && DigitChar(d) == c
  {
    c as int - '0' as int
  }

  /** The decimal value of a string of digits (leading zeros allowed). */
  function DigitsValue(s: string): (n: nat)
    requires AllDigits(s)
  {
    if s == [] then 0 else DigitsValue(s[..|s| - 1]) * 10 + DigitValue(s[|s| - 1])
  }

  /** String(n) for a non-negative integer: its decimal digits, no leading zero. */
  function NatToString(n: nat): (r: string)
    ensures |r| >= 1 && AllDigits(r)
    ensures n < 10 <==> |r| == 1
    ensures r[0] != '0' || n == 0
  {
    if n < 10 then [DigitChar(n)] else NatToString(n / 10) + [DigitChar(n % 10)]
  }

  /** Reading back the digits written by NatToString gives the number. */
  lemma {:induction false} NatToStringValue(n: nat)
    ensures DigitsValue(NatToString(n)) == n
  {
    if n >= 10 {
      NatToStringValue(n / 10);
      var s := NatToString(n);
      assert s[..|s| - 1] == NatToString(n / 10);
    }
  }

  /** A count followed by a noun: `${n} ${n === 1 ? singular : plural}`. */
  function Counted(n: nat, singular: string, plural: string): string {
    NatToString(n) + " " + (if n == 1 then singular else plural)
  }

  /**
   * A count label starts with the number in digits, which read back as the
   * number, and uses the singular noun exactly when the number is one.
   */
  lemma CountedReadsBack(n: nat, singular: string, plural: string)
    requires singular != plural
    ensures var r, k := Counted(n, singular, plural), |NatToString(n)|;
      && k < |r| && AllDigits(r[..k]) && DigitsValue(r[..k]) == n && r[k] == ' '
      && (r[k + 1..] == singular <==> n == 1)
      && (r[k + 1..] == plural <==> n != 1)
  {
    var r, k := Counted(n, singular, plural), |NatToString(n)|;
    assert r[..k] == NatToString(n);
    assert r[k + 1..] == if n == 1 then singular else plural;
    NatToStringValue(n);
  }

  /** String.prototype.padStart(width, "0"). */
  function PadZeros(s: string, width: nat): (r: string)
    ensures |r| == if |s| < width then width else |s|
    ensures r[|r| - |s|..] == s
    ensures forall i :: 0 <= i < |r| - |s| ==> r[i] == '0'
  {
    if |s| < width then seq(width - |s|, _ => '0') + s else s
  }

  /** Padding a string of digits with zeros keeps its value. */
  lemma {:induction false} PadZerosValue(s: string, width: nat)
    requires AllDigits(s)
    ensures AllDigits(PadZeros(s, width)) && DigitsValue(PadZeros(s, width)) == DigitsValue(s)
  {
    var r := PadZeros(s, width);
    LeadingZerosValue(r, |r| - |s|);
  }

  lemma {:induction false} LeadingZerosValue(r: string, k: nat)
    requires k <= |r| && AllDigits(r)
    requires forall i :: 0 <= i < k ==> r[i] == '0'
    ensures DigitsValue(r) == DigitsValue(r[k..])
    decreases |r|
  {
    if |r| > k {
      var p := r[..|r| - 1];
      LeadingZerosValue(p, k);
      assert p[k..] == r[k..][..|r| - k - 1];
    } else {
      assert r[k..] == [];
      ZerosValue(r);
    }
  }

  lemma {:induction false} ZerosValue(r: string)
    requires forall i :: 0 <= i < |r| ==> r[i] == '0'
    ensures AllDigits(r) && DigitsValue(r) == 0
    decreases |r|
  {
    if r != [] { ZerosValue(r[..|r| - 1]); }
  }

  // ------------------------------------------------------------------ search and split

  /** String.prototype.includes. */
  predicate Contains(s: string, part: string) {
    exists i | 0 <= i <= |s| - |part| :: OccursAt(s, part, i)
  }

  /** `part` occurs in `s` starting at index `i`. */
  predicate OccursAt(s: string, part: string, i: nat)
    requires i <= |s| - |part|
  {
    s[i..i + |part|] == part
  }

  /** The number of occurrences of `c` in `s`. */
  function Count(s: string, c: char): nat {
    if s == [] then 0 else (if s[0] == c then 1 else 0) + Count(s[1..], c)
  }

  /** String.prototype.split on a one-character separator: the pieces between separators. */
  function Split(s: string, sep: char): (parts: seq<string>)
    ensures |parts| == Count(s, sep) + 1
    ensures forall k :: 0 <= k < |parts| ==> sep !in parts[k]
  {
    if s == [] then [[]]
    else
      var rest := Split(s[1..], sep);
      if s[0] == sep then [[]] + rest else [[s[0]] + rest[0]] + rest[1..]
  }

  /** Array.prototype.join with a one-character separator. */
  function Join(parts: seq<string>, sep: char): string
    requires |parts| >= 1
  {
    if |parts| == 1 then parts[0] else parts[0] + [sep] + Join(parts[1..], sep)
  }

  /** Joining the pieces of a split with the same separator gives back the string. */
  lemma {:induction false} SplitJoin(s: string, sep: char)
    ensures Join(Split(s, sep), sep) == s
  {
    if s != [] {
      SplitJoin(s[1..], sep);
      var rest := Split(s[1..], sep);
      if s[0] != sep {
        if |rest| > 1 {
          assert Join(rest, sep) == rest[0] + [sep] + Join(rest[1..], sep);
          assert ([[s[0]] + rest[0]] + rest[1..])[1..] == rest[1..];
        }
      } else {
        assert ([[]] + rest)[1..] == rest;
      }
    }
  }

  /** Splitting a join of separator-free pieces gives back the pieces. */
  lemma {:induction false} JoinSplit(parts: seq<string>, sep: char)
    requires |parts| >= 1
    requires forall k :: 0 <= k < |parts| ==> sep !in parts[k]
    ensures Split(Join(parts, sep), sep) == parts
    decreases |parts|
  {
    if |parts| == 1 {
      SplitWhole(parts[0], sep);
    } else {
      var rest := parts[1..];
      assert forall k :: 0 <= k < |rest| ==> rest[k] == parts[k + 1];
      JoinSplit(rest, sep);
      SplitFirst(parts[0], Join(rest, sep), sep);
      assert [parts[0]] + rest == parts;
    }
  }

  /** A string without the separator is one piece. */
  lemma {:induction false} SplitWhole(x: string, sep: char)
    requires sep !in x
    ensures Split(x, sep) == [x]
    decreases |x|
  {
    if x != [] {
      assert x == [x[0]] + x[1..];
      SplitWhole(x[1..], sep);
      SplitAtChar(x[0], x[1..], sep);
    }
  }

  /** A separator-free first piece, the separator, and the rest: the piece comes first. */
  lemma {:induction false} SplitFirst(x: string, t: string, sep: char)
    requires sep !in x
    ensures Split(x + [sep] + t, sep) == [x] + Split(t, sep)
    decreases |x|
  {
    if x == [] {
      assert x + [sep] + t == [sep] + t;
      SplitAtSep(t, sep);
    } else {
      var y := x[1..] + [sep] + t;
      assert x + [sep] + t == [x[0]] + y;
      SplitFirst(x[1..], t, sep);
      SplitAtChar(x[0], y, sep);
      assert [x[0]] + x[1..] == x;
    }
  }

  /** A leading separator splits off an empty piece. */
  lemma SplitAtSep(t: string, sep: char)
    ensures Split([sep] + t, sep) == [[]] + Split(t, sep)
  {
    assert ([sep] + t)[1..] == t;
  }

  /** A leading ordinary character joins the first piece. */
  lemma SplitAtChar(c: char, t: string, sep: char)
    requires c != sep
    ensures Split([c] + t, sep) == [[c] + Split(t, sep)[0]] + Split(t, sep)[1..]
  {
    assert ([c] + t)[1..] == t;
  }

  // ------------------------------------------------------------------ order

  /**
   * The comparison of Array.prototype.sort without a comparator: code unit
   * by code unit, a proper prefix first.
   */
  predicate LexLess(a: string, b: string) {
    if a == [] then b != []
    else if b == [] then false
    else if a[0] != b[0] then a[0] < b[0]
    else LexLess(a[1..], b[1..])
  }

  lemma {:induction false} LexIrreflexive(a: string)
    ensures !LexLess(a, a)
  {
    if a != [] {
      LexIrreflexive(a[1..]);
    }
  }

  /** Two different strings are ordered one way and not the other. */
  lemma {:induction false} LexTotal(a: string, b: string)
    ensures a != b ==> (LexLess(a, b) <==> !LexLess(b, a))
    ensures a == b ==> !LexLess(a, b)
  {
    if a == b {
      LexIrreflexive(a);
    } else if a != [] && b != [] && a[0] == b[0] {
      LexTotal(a[1..], b[1..]);
      assert a == [a[0]] + a[1..] && b == [b[0]] + b[1..];
    }
  }

  lemma {:induction false} LexTransitive(a: string, b: string, c: string)
    requires LexLess(a, b) && LexLess(b, c)
    ensures LexLess(a, c)
  {
    if a != [] && a[0] == b[0] && b[0] == c[0] {
      LexTransitive(a[1..], b[1..], c[1..]);
    }
  }
}
