/** The text of `.schema_version`: what set_version prints and the grammar that
    get_version accepts.  A byte of the file is a `char`. */
module VersionText {
  import opened Widths
  import opened Status

  const ULONG_MAX: nat := 0xFFFF_FFFF_FFFF_FFFF
  const LINE_MAX: nat := 31

  predicate IsDigit(c: char) {
    '0' <= c <= '9'
  }

  /** The blanks that get_version itself skips. */
  predicate IsBlank(c: char) {
    c == ' ' || c == '\t' || c == '\r' || c == '\n'
  }

  /** isspace of the C locale, which strtoul skips: vertical tab and form feed too. */
  predicate IsSpace(c: char) {
    IsBlank(c) || c as int == 11 || c as int == 12
  }

  ghost predicate AllDigits(s: string) {
    forall i :: 0 <= i < |s| ==> IsDigit(s[i])
  }

  ghost predicate AllBlank(s: string, from: nat, to: nat)
    requires to <= |s|
  {
    forall i :: from <= i < to ==> IsBlank(s[i])
  }

  /** The number a run of decimal digits denotes. */
  ghost function Value(s: string): nat
    requires AllDigits(s)
  {
    if s == [] then 0 else 10 * Value(s[..|s| - 1]) + (s[|s| - 1] as int - '0' as int)
  }

  // ---- Printing -----------------------------------------------------------

  function Digit(d: nat): char
    requires d < 10
  {
    (d + '0' as int) as char
  }

  function Digits(n: nat): (s: string)
    ensures s != [] && AllDigits(s) && Value(s) == n
  {
    if n < 10 then
      [Digit(n)]
    else
      var s := Digits(n / 10) + [Digit(n % 10)];
      assert s[..|s| - 1] == Digits(n / 10);
      s
  }

  /** `fprintf(f, "%u\n", version)` */
  function Print(version: nat): string {
    Digits(version) + "\n"
  }

  ghost function Pow10(k: nat): nat {
    if k == 0 then 1 else 10 * Pow10(k - 1)
  }

  lemma {:induction false} DigitsLength(n: nat, k: nat)
    requires 0 < k && n < Pow10(k)
    ensures |Digits(n)| <= k
  {
    if n >= 10 {
      assert Pow10(1) == 10;
      DigitsLength(n / 10, k - 1);
    }
  }

  // ---- The grammar --------------------------------------------------------

  /** How many characters fgets(ver_buf, 32, f) takes. */
  ghost predicate IsLine(content: string, n: nat) {
    && n <= |content|
    && n <= LINE_MAX
    && (forall i :: 0 <= i < n - 1 ==> content[i] != '\n')
    && (n == |content| || n == LINE_MAX || (n > 0 && content[n - 1] == '\n'))
  }

  lemma LineIsUnique(content: string, n: nat, m: nat)
    requires IsLine(content, n) && IsLine(content, m)
    ensures n == m
  {
  }

  /** The C string held by a buffer: everything before the first NUL. */
  ghost predicate IsCString(buffer: string, n: nat) {
    && n <= |buffer|
    && (forall i :: 0 <= i < n ==> buffer[i] != '\0')
    && (n < |buffer| ==> buffer[n] == '\0')
  }

  lemma CStringIsUnique(buffer: string, n: nat, m: nat)
    requires IsCString(buffer, n) && IsCString(buffer, m)
    ensures n == m
  {
    assert n < |buffer| ==> buffer[n] == '\0';
    assert m < |buffer| ==> buffer[m] == '\0';
  }

  /** s is blanks, then a digit run s[i..j], then blanks. */
  ghost predicate Splits(s: string, i: nat, j: nat) {
    && i < j <= |s|
    && AllBlank(s, 0, i)
    && AllDigits(s[i..j])
    && AllBlank(s, j, |s|)
  }

  lemma SplitEnds(s: string, i: nat, j: nat)
    requires Splits(s, i, j)
    ensures forall k :: i <= k < j ==> IsDigit(s[k])
    ensures j < |s| ==> IsBlank(s[j])
  {
  }

  lemma SplitIsUnique(s: string, i: nat, j: nat, i': nat, j': nat)
    requires Splits(s, i, j) && Splits(s, i', j')
    ensures i == i' && j == j'
  {
    SplitEnds(s, i, j);
    SplitEnds(s, i', j');
    assert IsDigit(s[i]) && IsDigit(s[i']);
  }

  /** content is a version file whose first line denotes the number val. */
  ghost predicate Denotes(content: string, val: nat) {
    exists n: nat, k: nat, i: nat, j: nat ::
      DenotesAt(content, val, n, k, i, j)
  }

  ghost predicate DenotesAt(content: string, val: nat, n: nat, k: nat, i: nat, j: nat) {
    && IsLine(content, n)
    && IsCString(content[..n], k)
    && Splits(content[..k], i, j)
    && val == Value(content[..k][i..j])
    && val <= ULONG_MAX
  }

  lemma DenotesIsFunctional(content: string, a: nat, b: nat)
    requires Denotes(content, a) && Denotes(content, b)
    ensures a == b
  {
    var n: nat, k: nat, i: nat, j: nat :| DenotesAt(content, a, n, k, i, j);
    var n': nat, k': nat, i': nat, j': nat :| DenotesAt(content, b, n', k', i', j');
    LineIsUnique(content, n, n');
    CStringIsUnique(content[..n], k, k');
    SplitIsUnique(content[..k], i, j, i', j');
  }

  /** What get_version makes of the bytes of an existing, readable file: the
      denoted number narrowed to 32 bits, or corruption when there is none. */
  ghost function Read(content: string): Result<nat> {
    if exists val: nat :: Denotes(content, val) then
      var val: nat :| Denotes(content, val);
      Ok(val % TWO_32)
    else
      Err(FileCorrupt)
  }

  lemma ReadDenoted(content: string, val: nat)
    requires Denotes(content, val)
    ensures Read(content) == Ok(val % TWO_32)
  {
    var w: nat :| Denotes(content, w) && Read(content) == Ok(w % TWO_32);
    DenotesIsFunctional(content, val, w);
  }

  /** The reader accepts exactly the grammar, and below 2^32 the value is exact. */
  lemma ReadGrammar(content: string)
    ensures Read(content).Ok? <==> exists val: nat :: Denotes(content, val)
    ensures forall val: nat :: Denotes(content, val) && val < TWO_32 ==> Read(content) == Ok(val)
  {
    forall val: nat | Denotes(content, val) && val < TWO_32
      ensures Read(content) == Ok(val)
    {
      ReadDenoted(content, val);
    }
  }

  /** Reading what set_version prints returns the same version. */
  lemma PrintThenRead(version: nat)
    requires version < TWO_32
    ensures Read(Print(version)) == Ok(version)
  {
    hide *;
    PrintDenotes(version);
    ReadDenoted(Print(version), version);
  }

  lemma PrintDenotes(version: nat)
    requires version < TWO_32
    ensures Denotes(Print(version), version)
  {
    var d, s := Digits(version), Print(version);
    PrintLength(version);
    assert forall i :: 0 <= i < |d| ==> IsDigit(d[i]) && s[i] == d[i];
    assert s[..|s|] == s && s[0..|d|] == d;
    assert IsLine(s, |s|);
    assert IsCString(s[..|s|], |s|);
    assert Splits(s, 0, |d|);
    assert DenotesAt(s, version, |s|, |s|, 0, |d|);
  }

  /** Blanks, tabs and carriage returns around the number do not matter. */
  lemma BlanksAround(before: string, version: nat, after: string)
    requires version < TWO_32 && |before| + |Digits(version)| + |after| <= LINE_MAX
    requires forall i :: 0 <= i < |before| ==> before[i] in " \t\r"
    requires forall i :: 0 <= i < |after| ==> after[i] in " \t\r"
    ensures Read(before + Digits(version) + after) == Ok(version)
  {
    var d := Digits(version);
    var s := before + d + after;
    ThreeParts(before, d, after);
    Placed(s, version, |before|, |before| + |d|);
  }

  /** A line that is blanks, the digits of a version, and blanks. */
  lemma Placed(s: string, version: nat, i: nat, j: nat)
    requires version < TWO_32 && |s| <= LINE_MAX && i < j <= |s| && s[i..j] == Digits(version)
    requires forall k :: 0 <= k < |s| ==> s[k] != '\n' && s[k] != '\0'
    requires AllBlank(s, 0, i) && AllBlank(s, j, |s|)
    ensures Read(s) == Ok(version)
  {
    hide Digits, IsBlank, Read;
    assert s[..|s|] == s;
    assert IsLine(s, |s|) && IsCString(s[..|s|], |s|) && Splits(s, i, j);
    assert DenotesAt(s, version, |s|, |s|, i, j);
    ReadDenoted(s, version);
  }

  lemma ThreeParts(before: string, d: string, after: string)
    requires d != [] && AllDigits(d)
    requires forall i :: 0 <= i < |before| ==> before[i] in " \t\r"
    requires forall i :: 0 <= i < |after| ==> after[i] in " \t\r"
    ensures var s := before + d + after;
      && s[|before|..|before| + |d|] == d
      && (forall k :: 0 <= k < |s| ==> s[k] != '\n' && s[k] != '\0')
      && AllBlank(s, 0, |before|) && AllBlank(s, |before| + |d|, |s|)
  {
  }

  /** Nothing else may stand in an accepted line. */
  lemma OnlyBlanksAround(content: string, n: nat, k: nat)
    requires Read(content).Ok? && IsLine(content, n) && IsCString(content[..n], k)
    ensures forall i :: 0 <= i < k ==> content[i] in "0123456789 \t\r\n"
  {
    var val: nat :| Denotes(content, val);
    var i, j := SplitOf(content, val, n, k);
    var s := content[..k];
    SplitEnds(s, i, j);
    forall p | 0 <= p < k
      ensures content[p] in "0123456789 \t\r\n"
    {
      assert s[p] == content[p];
      OneOfThese(s[p]);
    }
  }

  lemma OneOfThese(c: char)
    ensures IsDigit(c) || IsBlank(c) ==> c in "0123456789 \t\r\n"
  {
  }

  lemma PrintLength(version: nat)
    requires version < TWO_32
    ensures |Digits(version)| <= 10
  {
    PowersOfTen();
    DigitsLength(version, 10);
  }

  lemma PowersOfTen()
    ensures Pow10(10) == 10_000_000_000
    ensures Pow10(20) == 100_000_000_000_000_000_000
  {
  }

  // ---- The reader ---------------------------------------------------------

  /** fgets(ver_buf, sizeof(ver_buf), f) with a 32-byte buffer. */
  method Fgets(content: string) returns (line: string)
    ensures IsLine(content, |line|) && line == content[..|line|]
  {
    var n := 0;
    while n < |content| && n < LINE_MAX && (n == 0 || content[n - 1] != '\n')
      invariant n <= |content| && n <= LINE_MAX
      invariant forall i :: 0 <= i < n - 1 ==> content[i] != '\n'
    {
      n := n + 1;
    }
    line := content[..n];
  }

  method CString(buffer: string) returns (s: string)
    ensures IsCString(buffer, |s|) && s == buffer[..|s|]
  {
    var n := 0;
    while n < |buffer| && buffer[n] != '\0'
      invariant n <= |buffer|
      invariant forall i :: 0 <= i < n ==> buffer[i] != '\0'
    {
      n := n + 1;
    }
    s := buffer[..n];
  }

  /** s[..w] is white space, s[w..g] an optional sign, s[g..e] the longest digit run. */
  ghost predicate Subject(s: string, w: nat, g: nat, e: nat) {
    && w <= g <= e <= |s|
    && (forall i :: 0 <= i < w ==> IsSpace(s[i]))
    && (w < |s| ==> !IsSpace(s[w]))
    && g == (if w < |s| && (s[w] == '-' || s[w] == '+') then w + 1 else w)
    && AllDigits(s[g..e])
    && (e < |s| ==> !IsDigit(s[e]))
  }

  /** strtoul(s, &end, 10), section 7.22.1.4 of ISO C11. */
  method Strtoul(s: string) returns (val: nat, end: nat, erange: bool, ghost w: nat, ghost g: nat, ghost e: nat)
    ensures Subject(s, w, g, e)
    ensures e == g ==> end == 0 && val == 0 && !erange
    ensures e > g ==> end == e && (erange <==> Value(s[g..e]) > ULONG_MAX)
    ensures e > g && erange ==> val == ULONG_MAX
    ensures e > g && !erange && g == w ==> val == Value(s[g..e])
    ensures e > g && !erange && g > w && s[w] == '+' ==> val == Value(s[g..e])
    ensures e > g && !erange && g > w && s[w] == '-' ==>
      val == (ULONG_MAX + 1 - Value(s[g..e])) % (ULONG_MAX + 1)
  {
    var p := 0;
    while p < |s| && IsSpace(s[p])
      invariant p <= |s|
      invariant forall i :: 0 <= i < p ==> IsSpace(s[i])
    {
      p := p + 1;
    }
    w := p;
    var negative := p < |s| && s[p] == '-';
    if p < |s| && (s[p] == '-' || s[p] == '+') {
      p := p + 1;
    }
    g := p;
    var start := p;
    var acc: nat := 0;
    while p < |s| && IsDigit(s[p])
      invariant start <= p <= |s|
      invariant AllDigits(s[start..p])
      invariant acc == Value(s[start..p])
    {
      assert s[start..p + 1] == s[start..p] + [s[p]];
      assert AllDigits(s[start..p + 1]);
      acc := 10 * acc + (s[p] as int - '0' as int);
      p := p + 1;
    }
    e := p;
    if p == start {
      val, end, erange := 0, 0, false;
    } else if acc > ULONG_MAX {
      val, end, erange := ULONG_MAX, p, true;
    } else {
      val := if negative then (ULONG_MAX + 1 - acc) % (ULONG_MAX + 1) else acc;
      end, erange := p, false;
    }
  }

  /** The part of get_version that follows the successful open. */
  method ReadVersion(content: string) returns (r: Result<nat>)
    ensures r == Read(content)
  {
    var line := Fgets(content);
    if |line| == 0 {
      NothingDenoted(content, 0, 0);
      return Err(FileCorrupt);
    }
    var s := CString(line);
    assert s == content[..|s|];
    var val, end, erange, w, g, e := Strtoul(s);
    if end == 0 || erange {
      RejectSubject(content, |line|, s, w, g, e);
      return Err(FileCorrupt);
    }
    var scan := 0;
    while scan < |s| && IsBlank(s[scan])
      invariant scan <= |s|
      invariant forall i :: 0 <= i < scan ==> IsBlank(s[i])
    {
      scan := scan + 1;
    }
    if scan == |s| || !IsDigit(s[scan]) {
      RejectPrefix(content, |line|, s, scan);
      return Err(FileCorrupt);
    }
    assert scan == w == g;
    while end < |s|
      invariant e <= end <= |s|
      invariant forall i :: e <= i < end ==> IsBlank(s[i])
    {
      if !IsBlank(s[end]) {
        RejectSuffix(content, |line|, s, w, g, e, end);
        return Err(FileCorrupt);
      }
      end := end + 1;
    }
    assert Splits(s, w, e);
    assert DenotesAt(content, val, |line|, |s|, w, e);
    ReadDenoted(content, val);
    r := Ok(val % TWO_32);
  }

  /** Where a denoted value would have to come from, given the line and the C string. */
  lemma SplitOf(content: string, val: nat, n: nat, k: nat) returns (i: nat, j: nat)
    requires IsLine(content, n) && IsCString(content[..n], k) && Denotes(content, val)
    ensures DenotesAt(content, val, n, k, i, j)
  {
    var n': nat, k': nat, i': nat, j': nat :| DenotesAt(content, val, n', k', i', j');
    LineIsUnique(content, n, n');
    CStringIsUnique(content[..n], k, k');
    i, j := i', j';
  }

  lemma NothingDenoted(content: string, n: nat, k: nat)
    requires IsLine(content, n) && IsCString(content[..n], k) && k == 0
    ensures Read(content) == Err(FileCorrupt)
  {
  }

  /** A digit run between blanks is the subject sequence of strtoul. */
  lemma SubjectIsSplit(s: string, i: nat, j: nat, w: nat, g: nat, e: nat)
    requires Splits(s, i, j) && Subject(s, w, g, e)
    ensures w == g == i && e == j
  {
    SplitEnds(s, i, j);
    assert IsDigit(s[i]) && !IsSpace(s[i]);
    assert w == i == g;
    assert forall k :: g <= k < e ==> s[k] == s[g..e][k - g];
  }

  lemma RejectSubject(content: string, n: nat, s: string, w: nat, g: nat, e: nat)
    requires IsLine(content, n) && IsCString(content[..n], |s|) && s == content[..|s|]
    requires Subject(s, w, g, e) && (e == g || Value(s[g..e]) > ULONG_MAX)
    ensures Read(content) == Err(FileCorrupt)
  {
    if val: nat :| Denotes(content, val) {
      var i, j := SplitOf(content, val, n, |s|);
      SubjectIsSplit(s, i, j, w, g, e);
    }
  }

  lemma RejectPrefix(content: string, n: nat, s: string, scan: nat)
    requires IsLine(content, n) && IsCString(content[..n], |s|) && s == content[..|s|]
    requires scan <= |s| && AllBlank(s, 0, scan)
    requires scan == |s| || (!IsBlank(s[scan]) && !IsDigit(s[scan]))
    ensures Read(content) == Err(FileCorrupt)
  {
    if val: nat :| Denotes(content, val) {
      var i, j := SplitOf(content, val, n, |s|);
      SplitEnds(s, i, j);
    }
  }

  lemma RejectSuffix(content: string, n: nat, s: string, w: nat, g: nat, e: nat, at: nat)
    requires IsLine(content, n) && IsCString(content[..n], |s|) && s == content[..|s|]
    requires Subject(s, w, g, e) && e <= at < |s| && !IsBlank(s[at])
    ensures Read(content) == Err(FileCorrupt)
  {
    if val: nat :| Denotes(content, val) {
      var i, j := SplitOf(content, val, n, |s|);
      SubjectIsSplit(s, i, j, w, g, e);
    }
  }
}
