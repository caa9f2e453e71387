/** The C library searches and `sscanf` directives that the loader uses,
    each as a pure matcher over the loaded text. A position is an index
    into the text; the end of the text stands for its terminating NUL. */
module CString {

  import opened CInt

  datatype Option<T> = None | Some(value: T)

  /** A converted number and the position just after the characters it
      consumed. */
  datatype Scanned = Scanned(value: int, next: nat)

  predicate OccursAt(text: string, i: int, pat: string) {
    0 <= i && i + |pat| <= |text| && text[i..i + |pat|] == pat
  }

  /** `strstr(text + from, pat)`: the first occurrence of `pat` that starts
      at or after `from`. */
  function Find(text: string, from: nat, pat: string): (r: Option<nat>)
    ensures r.Some? ==> from <= r.value && OccursAt(text, r.value, pat)
    decreases |text| - from
  {
    if from + |pat| > |text| then None
    else if OccursAt(text, from, pat) then Some(from)
    else Find(text, from + 1, pat)
  }

  /** No occurrence of `pat` starts before the one `strstr` finds, and none
      at all when it finds nothing. */
  lemma {:induction false} FindFirst(text: string, from: nat, pat: string)
    ensures forall i :: from <= i && (Find(text, from, pat).None? || i < Find(text, from, pat).value) ==>
              !OccursAt(text, i, pat)
    decreases |text| - from
  {
    if from + |pat| <= |text| && !OccursAt(text, from, pat) {
      FindFirst(text, from + 1, pat);
    }
  }

  /** A search started earlier gives the same answer as one started later
      when the pattern does not occur in between. */
  lemma {:induction false} FindSkips(text: string, from: nat, to: nat, pat: string)
    requires from <= to
    requires forall i :: from <= i < to ==> !OccursAt(text, i, pat)
    ensures Find(text, from, pat) == Find(text, to, pat)
    decreases (to as int) - from
  {
    if from < to && from + |pat| <= |text| {
      FindSkips(text, from + 1, to, pat);
    }
  }

  /** No occurrence of `pat` starts in `from .. to`. */
  predicate Absent(text: string, from: int, to: int, pat: string) {
    forall i :: from <= i < to ==> !OccursAt(text, i, pat)
  }

  /** `strstr` from `from` finds the occurrence at `p` when none starts
      between the two. */
  lemma FindAt(text: string, from: nat, p: nat, pat: string)
    requires from <= p && Absent(text, from, p, pat) && OccursAt(text, p, pat)
    ensures Find(text, from, pat) == Some(p)
  {
    FindSkips(text, from, p, pat);
  }

  /** No occurrence can start where the text differs from the pattern's
      `j`-th character, nor where the pattern would run past the end. */
  lemma Mismatch(text: string, i: nat, pat: string, j: nat)
    requires j < |pat| && (i + |pat| > |text| || text[i + j] != pat[j])
    ensures Absent(text, i, i + 1, pat)
  {
    if i + |pat| <= |text| {
      assert text[i..i + |pat|][j] == text[i + j];
    }
  }

  lemma AbsentJoin(text: string, a: int, m: int, z: int, pat: string)
    requires a <= m <= z && Absent(text, a, m, pat) && Absent(text, m, z, pat)
    ensures Absent(text, a, z, pat)
  {
  }

  /** `"name"`: a name between double quotes, the form of every key the
      loader looks for. */
  function Quoted(name: string): (key: string)
    ensures |key| == |name| + 2 && key[0] == '"' && key[|key| - 1] == '"'
  {
    "\"" + name + "\""
  }

  /** A quoted key cannot start where the text has no double quote. */
  lemma QuoteFreeAbsent(text: string, a: nat, z: nat, name: string)
    requires z <= |text| && forall i :: a <= i < z ==> text[i] != '"'
    ensures Absent(text, a, z, Quoted(name))
  {
    forall i | a <= i < z
      ensures !OccursAt(text, i, Quoted(name))
    {
      Mismatch(text, i, Quoted(name), 0);
    }
  }

  /** A quoted word followed by `c` holds no quoted key other than the
      word itself, provided `c` is neither a quote nor part of the key. */
  lemma {:induction false} QuotedWordAbsent(text: string, a: nat, word: string, c: char, name: string)
    requires a + |word| + 3 <= |text| && text[a..a + |word| + 2] == Quoted(word) && text[a + |word| + 2] == c
    requires '"' !in word && '"' !in name && c != '"' && c !in name && word != name
    ensures Absent(text, a, a + |word| + 2, Quoted(name))
  {
    var key := Quoted(name);
    var z := a + |word| + 2;
    assert forall k :: 0 <= k < |word| ==> text[a + 1 + k] == word[k] by {
      forall k | 0 <= k < |word| ensures text[a + 1 + k] == word[k] {
        assert text[a + 1 + k] == text[a..z][1 + k] == Quoted(word)[1 + k];
      }
    }
    assert text[z - 1] == text[a..z][|word| + 1];
    assert forall k :: 0 <= k < |name| ==> key[1 + k] == name[k];
    // at the opening quote: the first character where word and name differ
    if |word| == |name| {
      var k :| 0 <= k < |word| && word[k] != name[k];
      Mismatch(text, a, key, 1 + k);
    } else if |name| < |word| {
      Mismatch(text, a, key, |name| + 1);
    } else {
      Mismatch(text, a, key, |word| + 1);
    }
    // inside the word: no quote
    QuoteFreeAbsent(text, a + 1, z - 1, name);
    // at the closing quote: `c` follows
    Mismatch(text, z - 1, key, 1);
    AbsentJoin(text, a, a + 1, z - 1, key);
    AbsentJoin(text, a, z - 1, z, key);
  }

  /** `strchr(text + from, c)`: the first `c` at or after `from`. */
  function FindChar(text: string, from: nat, c: char): (r: Option<nat>)
    ensures r.Some? ==> from <= r.value < |text| && text[r.value] == c
    decreases |text| - from
  {
    if from >= |text| then None
    else if text[from] == c then Some(from)
    else FindChar(text, from + 1, c)
  }

  /** No `c` comes before the one `strchr` finds, and none at all when it
      finds nothing. */
  lemma {:induction false} FindCharFirst(text: string, from: nat, c: char)
    ensures forall i :: from <= i < |text| && (FindChar(text, from, c).None? || i < FindChar(text, from, c).value) ==>
              text[i] != c
    decreases |text| - from
  {
    if from < |text| && text[from] != c {
      FindCharFirst(text, from + 1, c);
    }
  }

  /** `strchr` from `from` finds the `c` at `at` when none comes before. */
  lemma {:induction false} FindCharAt(text: string, from: nat, c: char, at: nat)
    requires from <= at < |text| && text[at] == c
    requires forall k :: from <= k < at ==> text[k] != c
    ensures FindChar(text, from, c) == Some(at)
    decreases at - from
  {
    if from < at {
      FindCharAt(text, from + 1, c, at);
    }
  }

  /** `isspace` in the C locale: space, tab, newline, vertical tab, form
      feed and carriage return. */
  predicate IsSpace(c: char) {
    c == ' ' || '\t' <= c <= '\r'
  }

  /** A white-space directive, and the white space every numeric
      conversion skips first. */
  function SkipSpace(text: string, i: nat): (j: nat)
    requires i <= |text|
    ensures i <= j <= |text|
    ensures j == |text| || !IsSpace(text[j])
    decreases |text| - i
  {
    if i < |text| && IsSpace(text[i]) then SkipSpace(text, i + 1) else i
  }

  /** Only white space from `i` to `j`. */
  predicate SpaceRun(text: string, i: nat, j: nat) {
    i <= j <= |text| && forall k :: i <= k < j ==> IsSpace(text[k])
  }

  /** A white-space directive stops at the first character that is not
      white space. */
  lemma {:induction false} SkipSpaceAt(text: string, i: nat, j: nat)
    requires SpaceRun(text, i, j) && (j == |text| || !IsSpace(text[j]))
    ensures SkipSpace(text, i) == j
    decreases j - i
  {
    if i < j {
      SkipSpaceAt(text, i + 1, j);
    }
  }

  /** Everything SkipSpace passes over is white space. */
  lemma {:induction false} SkipSpaceSkipsSpace(text: string, i: nat)
    requires i <= |text|
    ensures forall k :: i <= k < SkipSpace(text, i) ==> IsSpace(text[k])
    decreases |text| - i
  {
    if i < |text| && IsSpace(text[i]) {
      SkipSpaceSkipsSpace(text, i + 1);
    }
  }

  // ---------------------------------------------------------------- %d

  predicate IsDigit(c: char) {
    '0' <= c <= '9'
  }

  predicate AllDigits(s: string) {
    forall k :: 0 <= k < |s| ==> IsDigit(s[k])
  }

  function DigitValue(c: char): nat
    requires IsDigit(c)
  {
    c as int - '0' as int
  }

  /** The number a string of decimal digits denotes. */
  function DecimalValue(s: string): nat
    requires AllDigits(s)
  {
    if s == [] then 0 else DecimalValue(s[..|s| - 1]) * 10 + DigitValue(s[|s| - 1])
  }

  /** The end of the run of decimal digits that starts at `i`. */
  function DigitsEnd(text: string, i: nat): (j: nat)
    requires i <= |text|
    ensures i <= j <= |text|
    ensures AllDigits(text[i..j])
    ensures j == |text| || !IsDigit(text[j])
    decreases |text| - i
  {
    if i < |text| && IsDigit(text[i]) then DigitsEnd(text, i + 1) else i
  }

  /** The `%d` conversion at `i`: white space, an optional sign, then one or
      more decimal digits; None is a matching failure. */
  function ScanInt(text: string, i: nat): (r: Option<Scanned>)
    requires i <= |text|
    ensures r.Some? ==> i < r.value.next <= |text| && IsDigit(text[r.value.next - 1])
    ensures r.Some? ==> r.value.next == |text| || !IsDigit(text[r.value.next])
  {
    var j := SkipSpace(text, i);
    var k := if j < |text| && (text[j] == '+' || text[j] == '-') then j + 1 else j;
    var e := DigitsEnd(text, k);
    if e == k then None
    else
      var n: int := DecimalValue(text[k..e]);
      Some(Scanned(if k > j && text[j] == '-' then -n else n, e))
  }

  function DigitChar(d: nat): (c: char)
    requires d < 10
    ensures IsDigit(c) && DigitValue(c) == d
  {
    ('0' as int + d) as char
  }

  /** The decimal numeral of `n`, the partner of ScanInt. */
  function FormatNat(n: nat): (s: string)
    ensures s != []
  {
    if n < 10 then [DigitChar(n)] else FormatNat(n / 10) + [DigitChar(n % 10)]
  }

  /** The numeral is made of digits and denotes `n`. */
  lemma {:induction false} FormatNatDigits(n: nat)
    ensures AllDigits(FormatNat(n)) && DecimalValue(FormatNat(n)) == n
  {
    if n >= 10 {
      var s := FormatNat(n);
      FormatNatDigits(n / 10);
      assert s[..|s| - 1] == FormatNat(n / 10);
    }
  }

  function FormatInt(n: int): string {
    if n < 0 then "-" + FormatNat(-n) else FormatNat(n)
  }

  /** A numeral is a minus sign or digits, character by character. */
  lemma FormatIntChars(n: int)
    ensures forall k :: 0 <= k < |FormatInt(n)| ==> FormatInt(n)[k] == '-' || IsDigit(FormatInt(n)[k])
  {
    FormatNatDigits(Abs(n));
    if n < 0 {
      assert forall k :: 1 <= k < |FormatInt(n)| ==> FormatInt(n)[k] == FormatNat(-n)[k - 1];
    }
  }

  /** A run of digits at `k` that stops at `m` is the run DigitsEnd finds. */
  lemma {:induction false} DigitsEndAt(text: string, k: nat, m: nat)
    requires k <= m <= |text| && AllDigits(text[k..m])
    requires m == |text| || !IsDigit(text[m])
    ensures DigitsEnd(text, k) == m
    decreases m - k
  {
    if k < m {
      assert text[k] == text[k..m][0];
      assert text[k + 1..m] == text[k..m][1..];
      DigitsEndAt(text, k + 1, m);
    }
  }

  /** `%d` at `i` where white space runs to `j` and the text holds the
      numeral of `n` there, followed by a character that is not a digit,
      or by the end. */
  lemma ScanIntAt(text: string, i: nat, j: nat, n: int)
    requires SpaceRun(text, i, j)
    requires j + |FormatInt(n)| <= |text| && text[j..j + |FormatInt(n)|] == FormatInt(n)
    requires j + |FormatInt(n)| == |text| || !IsDigit(text[j + |FormatInt(n)|])
    ensures ScanInt(text, i) == Some(Scanned(n, j + |FormatInt(n)|))
  {
    var digits := FormatNat(Abs(n));
    FormatNatDigits(Abs(n));
    var k := if n < 0 then j + 1 else j;
    var m := j + |FormatInt(n)|;
    assert text[k..m] == digits by {
      if n < 0 {
        assert text[k..m] == text[j..m][1..];
      }
    }
    assert text[j] == text[j..m][0];
    SkipSpaceAt(text, i, j);
    DigitsEndAt(text, k, m);
    ScanIntFound(text, i, j, k, m);
  }

  /** ScanInt once its sign, digits and end are located. */
  lemma ScanIntFound(text: string, i: nat, j: nat, k: nat, m: nat)
    requires i <= |text| && SkipSpace(text, i) == j
    requires k == if j < |text| && (text[j] == '+' || text[j] == '-') then j + 1 else j
    requires k < m <= |text| && DigitsEnd(text, k) == m
    ensures ScanInt(text, i) ==
            Some(Scanned(if k > j && text[j] == '-' then -(DecimalValue(text[k..m]) as int) else DecimalValue(text[k..m]), m))
  {
  }

  /** `%d` reads back what FormatInt writes, stopping at the first
      character that is not a digit, wherever in the text it starts. */
  lemma ScanIntRoundTrip(before: string, n: int, rest: string)
    requires rest == [] || !IsDigit(rest[0])
    ensures ScanInt(before + FormatInt(n) + rest, |before|) == Some(Scanned(n, |before| + |FormatInt(n)|))
  {
    Middle(before, FormatInt(n), rest);
    ScanIntAt(before + FormatInt(n) + rest, |before|, |before|, n);
  }

  /** The middle part of a concatenation, and the character after it. */
  lemma Middle(before: string, mid: string, rest: string)
    ensures var text := before + mid + rest;
            (before + mid + rest)[|before|..|before| + |mid|] == mid &&
            (rest != [] ==> text[|before| + |mid|] == rest[0])
  {
    var text := before + mid + rest;
    assert text[|before|..|before| + |mid|] == mid;
  }

  // ---------------------------------------------------------- %N[^"]

  /** The `%N[^"]` conversion at `i`: the longest run of at most `width`
      characters that are not a double quote. An empty run is a matching
      failure, which leaves the destination as it was. */
  function ScanUntilQuote(text: string, i: nat, width: nat): (s: string)
    requires i <= |text|
    ensures |s| <= width && i + |s| <= |text|
    ensures s == text[i..i + |s|]
    ensures '"' !in s
    ensures |s| == width || i + |s| == |text| || text[i + |s|] == '"'
    decreases width
  {
    if width == 0 || i == |text| || text[i] == '"' then ""
    else [text[i]] + ScanUntilQuote(text, i + 1, width - 1)
  }

  /** Text free of quotes at `i`, followed by a quote or the end, is read
      back up to the width. */
  lemma ScanUntilQuoteAt(text: string, i: nat, s: string, width: nat)
    requires i + |s| <= |text| && text[i..i + |s|] == s && '"' !in s
    requires i + |s| == |text| || text[i + |s|] == '"'
    ensures ScanUntilQuote(text, i, width) == s[..Min(|s|, width)]
  {
    var r := ScanUntilQuote(text, i, width);
    assert forall k :: 0 <= k < |s| ==> text[i + k] == s[k];
    assert forall k :: 0 <= k < |r| ==> text[i + k] == r[k];
    assert |r| == Min(|s|, width);
  }

  /** Text free of quotes, followed by a quote or the end, is read back
      whole when it fits the width. */
  lemma {:induction false} ScanUntilQuoteRoundTrip(before: string, s: string, rest: string, width: nat)
    requires '"' !in s && |s| <= width
    requires rest == [] || rest[0] == '"'
    ensures ScanUntilQuote(before + s + rest, |before|, width) == s
  {
    var text := before + s + rest;
    var r := ScanUntilQuote(text, |before|, width);
    if rest != [] {
      assert text[|before| + |s|] == '"';
    }
    assert text[|before|..|before| + |s|] == s;
    assert r == text[|before|..|before| + |r|] == s;
  }

  /** ` "%N[^"]`: white space, an opening quote, then the `%N[^"]` field;
      the empty string when any of these fails to match. */
  function QuotedField(text: string, i: nat, width: nat): (s: string)
    requires i <= |text|
    ensures |s| <= width && '"' !in s
    ensures var j := SkipSpace(text, i);
            j < |text| && text[j] == '"' ==>
              j + 1 + |s| <= |text| && s == text[j + 1..j + 1 + |s|] &&
              (|s| == width || j + 1 + |s| == |text| || text[j + 1 + |s|] == '"')
    ensures var j := SkipSpace(text, i);
            !(j < |text| && text[j] == '"') ==> s == []
  {
    var j := SkipSpace(text, i);
    if j < |text| && text[j] == '"' then ScanUntilQuote(text, j + 1, width) else ""
  }

  // -------------------------------------------------------------- %2x

  predicate IsHexDigit(c: char) {
    '0' <= c <= '9' || 'a' <= c <= 'f' || 'A' <= c <= 'F'
  }

  predicate AllHexDigits(s: string) {
    forall k :: 0 <= k < |s| ==> IsHexDigit(s[k])
  }

  function HexDigitValue(c: char): (d: nat)
    requires IsHexDigit(c)
    ensures d < 16
  {
    if c <= '9' then c as int - '0' as int
    else if c <= 'F' then c as int - 'A' as int + 10
    else c as int - 'a' as int + 10
  }

  /** The number a string of hexadecimal digits denotes. */
  function HexValue(s: string): nat
    requires AllHexDigits(s)
  {
    if s == [] then 0 else HexValue(s[..|s| - 1]) * 16 + HexDigitValue(s[|s| - 1])
  }

  /** The end of the run of at most `width` hexadecimal digits at `i`. */
  function HexDigitsEnd(text: string, i: nat, width: nat): (j: nat)
    requires i <= |text|
    ensures i <= j <= i + width && j <= |text|
    ensures AllHexDigits(text[i..j])
    ensures j == i + width || j == |text| || !IsHexDigit(text[j])
    decreases width
  {
    if width > 0 && i < |text| && IsHexDigit(text[i]) then HexDigitsEnd(text, i + 1, width - 1) else i
  }

  /** The `%02x` conversion at `i`: white space, then a field of at most two
      characters, an optional sign and hexadecimal digits. */
  function ScanHex2(text: string, i: nat): (r: Option<Scanned>)
    requires i <= |text|
    ensures r.Some? ==> i < r.value.next <= |text| && -15 <= r.value.value <= 255
  {
    var j := SkipSpace(text, i);
    var signed := j < |text| && (text[j] == '+' || text[j] == '-');
    var k := if signed then j + 1 else j;
    var e := HexDigitsEnd(text, k, if signed then 1 else 2);
    if e == k then None
    else
      var n: int := HexValue(text[k..e]);
      HexValueBound(text[k..e]);
      Some(Scanned(if signed && text[j] == '-' then -n else n, e))
  }

  lemma HexValueBound(s: string)
    requires AllHexDigits(s) && |s| <= 2
    ensures HexValue(s) < if |s| == 2 then 256 else 16
  {
    if |s| == 2 {
      assert s[..1][..0] == [];
    } else if |s| == 1 {
      assert s[..0] == [];
    }
  }
}
