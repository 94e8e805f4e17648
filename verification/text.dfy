/** The parts of Go's `strings` and `strconv` packages the core relies on,
    over strings as sequences of runes. */
module Text {

  /** Go's `unicode.IsSpace`: the Latin-1 spaces plus the Unicode
      White_Space code points above U+00FF. */
  predicate IsSpace(c: char) {
    || c == ' ' || c == '\t' || c == '\n' || c == '\r'
    || c == '\U{000B}' || c == '\U{000C}' || c == '\U{0085}' || c == '\U{00A0}'
    || c == '\U{1680}' || ('\U{2000}' <= c <= '\U{200A}')
    || c == '\U{2028}' || c == '\U{2029}' || c == '\U{202F}' || c == '\U{205F}'
    || c == '\U{3000}'
  }

  /** A string made only of white space (possibly empty). */
  predicate IsBlank(s: string) {
    forall i :: 0 <= i < |s| ==> IsSpace(s[i])
  }

  function TrimLeftSpace(s: string): (r: string)
    ensures |r| <= |s| && r == s[|s| - |r|..]
    ensures |r| > 0 ==> !IsSpace(r[0])
    decreases |s|
  {
    if |s| > 0 && IsSpace(s[0]) then TrimLeftSpace(s[1..]) else s
  }

  function TrimRightSpace(s: string): (r: string)
    ensures |r| <= |s| && r == s[..|r|]
    ensures |r| > 0 ==> !IsSpace(r[|r| - 1])
    decreases |s|
  {
    if |s| > 0 && IsSpace(s[|s| - 1]) then TrimRightSpace(s[..|s| - 1]) else s
  }

  /** Go's `strings.TrimSpace`. */
  function TrimSpace(s: string): (r: string)
    ensures |r| <= |s|
    ensures |r| > 0 ==> !IsSpace(r[0]) && !IsSpace(r[|r| - 1])
  {
    var l := TrimLeftSpace(s);
    assert |l| > 0 ==> l[0] == s[|s| - |l|];
    TrimRightSpace(l)
  }

  lemma {:induction false} TrimLeftSpaceDropsBlank(s: string)
    ensures IsBlank(s[..|s| - |TrimLeftSpace(s)|])
    decreases |s|
  {
    if |s| > 0 && IsSpace(s[0]) {
      TrimLeftSpaceDropsBlank(s[1..]);
      var k := |s| - |TrimLeftSpace(s)|;
      assert forall i :: 1 <= i < k ==> s[..k][i] == s[1..][..k - 1][i - 1];
    }
  }

  lemma {:induction false} TrimRightSpaceEmpty(s: string)
    requires |TrimRightSpace(s)| == 0
    ensures IsBlank(s)
    decreases |s|
  {
    if |s| > 0 {
      TrimRightSpaceEmpty(s[..|s| - 1]);
      assert forall i :: 0 <= i < |s| - 1 ==> s[i] == s[..|s| - 1][i];
    }
  }

  /** TrimSpace yields the empty string exactly for blank input. */
  lemma TrimSpaceEmptyIffBlank(s: string)
    ensures TrimSpace(s) == "" <==> IsBlank(s)
  {
    var l := TrimLeftSpace(s);
    TrimLeftSpaceDropsBlank(s);
    if |l| == 0 {
      assert s[..|s|] == s;
    } else {
      assert s[|s| - |l|] == l[0];
      if TrimRightSpace(l) == "" {
        TrimRightSpaceEmpty(l);
      }
    }
  }

  lemma TrimSpaceUnchanged(s: string)
    requires |s| == 0 || (!IsSpace(s[0]) && !IsSpace(s[|s| - 1]))
    ensures TrimSpace(s) == s
  {
  }

  /** One blank on either side of a trimmed word is removed again. */
  lemma TrimSpacePadded(s: string)
    requires |s| > 0 && !IsSpace(s[0]) && !IsSpace(s[|s| - 1])
    ensures TrimSpace(" " + s + " ") == s
  {
    var p := " " + s + " ";
    var t := s + " ";
    assert p[1..] == t;
    assert TrimLeftSpace(p) == TrimLeftSpace(t);
    assert TrimLeftSpace(t) == t;
    assert t[..|t| - 1] == s;
    assert TrimRightSpace(t) == TrimRightSpace(s);
    assert TrimLeftSpace(s) == s;
    TrimSpaceUnchanged(s);
  }

  function LowerChar(c: char): char {
    if 'A' <= c <= 'Z' then (c as int + 32) as char else c
  }

  /** `strings.ToLower`, restricted to the ASCII letters. */
  function Lower(s: string): (r: string)
    ensures |r| == |s|
    ensures forall i :: 0 <= i < |s| ==> r[i] == LowerChar(s[i])
  {
    seq(|s|, i requires 0 <= i < |s| => LowerChar(s[i]))
  }

  lemma LowerUnchanged(s: string)
    requires forall i :: 0 <= i < |s| ==> !('A' <= s[i] <= 'Z')
    ensures Lower(s) == s
  {
  }

  /** Case folding never turns a blank into a non-blank or back. */
  lemma LowerCharSpace(c: char)
    ensures IsSpace(LowerChar(c)) <==> IsSpace(c)
  {
  }

  lemma LowerIdempotent(s: string)
    ensures Lower(Lower(s)) == Lower(s)
  {
  }

  /** Case folding keeps every rune that is not an upper-case ASCII letter
      where it is, so such a rune occurs in `Lower(s)` iff it occurs in `s`. */
  lemma LowerKeeps(s: string, c: char)
    requires !('A' <= c <= 'Z') && !('a' <= c <= 'z')
    ensures c in Lower(s) <==> c in s
  {
    if c in s {
      var i :| 0 <= i < |s| && s[i] == c;
      assert Lower(s)[i] == c;
    }
    if c in Lower(s) {
      var i :| 0 <= i < |s| && Lower(s)[i] == c;
      assert s[i] == c;
    }
  }

  /** Trimming and case folding is a normal form: doing it twice is doing it
      once. */
  lemma NormalizeIdempotent(s: string)
    ensures Lower(TrimSpace(Lower(TrimSpace(s)))) == Lower(TrimSpace(s))
  {
    var t := TrimSpace(s);
    var l := Lower(t);
    if |t| > 0 {
      LowerCharSpace(t[0]);
      LowerCharSpace(t[|t| - 1]);
    }
    TrimSpaceUnchanged(l);
    LowerIdempotent(t);
  }

  predicate HasPrefix(s: string, p: string) {
    |p| <= |s| && s[..|p|] == p
  }

  predicate HasSuffix(s: string, p: string) {
    |p| <= |s| && s[|s| - |p|..] == p
  }

  /** `sub` occurs in `s` starting at offset `i`. */
  predicate OccursAt(s: string, sub: string, i: int) {
    0 <= i && i + |sub| <= |s| && s[i..i + |sub|] == sub
  }

  predicate Contains(s: string, sub: string) {
    exists i :: 0 <= i <= |s| - |sub| && OccursAt(s, sub, i)
  }

  /** `strings.ContainsAny`. */
  predicate ContainsAny(s: string, chars: string) {
    exists i :: 0 <= i < |s| && s[i] in chars
  }

  /** `strings.Index`: the first occurrence of a non-empty `sub`, or -1. */
  function IndexOf(s: string, sub: string): (r: int)
    requires |sub| > 0
    ensures r < 0 ==> r == -1 && !Contains(s, sub)
    ensures r >= 0 ==> OccursAt(s, sub, r) && forall j :: 0 <= j < r ==> !OccursAt(s, sub, j)
    decreases |s|
  {
    if |s| < |sub| then -1
    else if s[..|sub|] == sub then 0
    else
      var k := IndexOf(s[1..], sub);
      if k < 0 then
        assert !Contains(s, sub) by {
          forall j | 1 <= j && OccursAt(s, sub, j) ensures OccursAt(s[1..], sub, j - 1) {
            assert s[1..][j - 1..j - 1 + |sub|] == s[j..j + |sub|];
          }
        }
        -1
      else
        assert forall j :: 1 <= j < k + 1 ==> (OccursAt(s, sub, j) ==> OccursAt(s[1..], sub, j - 1));
        assert s[k + 1..k + 1 + |sub|] == s[1..][k..k + |sub|];
        k + 1
    }

  /** A string whose first rune does not occur in `s` does not occur in
      `s` either. */
  lemma AbsentHead(s: string, e: string)
    requires |e| > 0 && e[0] !in s
    ensures !Contains(s, e)
  {
    forall j | 0 <= j <= |s| - |e| ensures !OccursAt(s, e, j) {
      assert s[j..j + |e|][0] == s[j];
    }
  }

  /** A rune absent from `s` does not occur in it as a substring. */
  lemma AbsentRune(s: string, c: char)
    requires c !in s
    ensures !Contains(s, [c])
  {
    AbsentHead(s, [c]);
  }

  /** An occurrence of `e` in `a + [d] + b`, where the rune `d` does not
      occur in `e`, lies wholly inside `a` or wholly inside `b`. */
  lemma ContainsAcross(a: string, d: char, b: string, e: string)
    requires d !in e
    requires Contains(a + [d] + b, e)
    ensures Contains(a, e) || Contains(b, e)
  {
    var s := a + [d] + b;
    var i :| 0 <= i <= |s| - |e| && OccursAt(s, e, i);
    assert forall j :: i <= j < i + |e| ==> s[j] == e[j - i];
    assert s[|a|] == d;
    if i + |e| <= |a| {
      assert a[i..i + |e|] == s[i..i + |e|];
      assert OccursAt(a, e, i);
    } else if |a| < i {
      var j := i - |a| - 1;
      assert b[j..j + |e|] == s[i..i + |e|];
      assert OccursAt(b, e, j);
    }
  }

  /** Joining on a one-rune separator absent from `e` creates no
      occurrence of `e`. */
  lemma {:induction false} JoinContainsNothingNew(parts: seq<string>, d: char, e: string)
    requires |e| > 0 && d !in e
    requires forall k :: 0 <= k < |parts| ==> !Contains(parts[k], e)
    ensures !Contains(Join(parts, [d]), e)
    decreases |parts|
  {
    if |parts| > 1 {
      JoinContainsNothingNew(parts[1..], d, e);
      if Contains(Join(parts, [d]), e) {
        assert Join(parts, [d]) == parts[0] + [d] + Join(parts[1..], [d]);
        ContainsAcross(parts[0], d, Join(parts[1..], [d]), e);
      }
    }
  }

  /** `strings.Join`. */
  function Join(parts: seq<string>, sep: string): string
    decreases |parts|
  {
    if |parts| == 0 then ""
    else if |parts| == 1 then parts[0]
    else parts[0] + sep + Join(parts[1..], sep)
  }

  lemma JoinCons(x: string, rest: seq<string>, sep: string)
    requires |rest| >= 1
    ensures Join([x] + rest, sep) == x + sep + Join(rest, sep)
  {
    assert ([x] + rest)[1..] == rest;
  }

  /** Words joined by any separator neither start nor end with white
      space. */
  lemma {:induction false} JoinWordsEdges(words: seq<string>, sep: string)
    requires |words| > 0
    requires forall k :: 0 <= k < |words| ==> IsWord(words[k])
    ensures |Join(words, sep)| > 0
    ensures !IsSpace(Join(words, sep)[0]) && !IsSpace(Join(words, sep)[|Join(words, sep)| - 1])
    decreases |words|
  {
    var w := words[0];
    assert IsWord(w);
    if |words| > 1 {
      assert IsWord(words[1..][0]);
      JoinWordsEdges(words[1..], sep);
      var tail := Join(words[1..], sep);
      var j := w + sep + tail;
      assert Join(words, sep) == j;
      assert j[0] == w[0];
      assert j[|j| - 1] == tail[|tail| - 1];
    } else {
      assert Join(words, sep) == w;
      assert !IsSpace(w[|w| - 1]);
    }
  }

  /** So trimming leaves joined words alone. */
  lemma JoinWordsUntrimmed(words: seq<string>, sep: string)
    requires |words| > 0
    requires forall k :: 0 <= k < |words| ==> IsWord(words[k])
    ensures |Join(words, sep)| > 0
    ensures TrimSpace(Join(words, sep)) == Join(words, sep)
  {
    JoinWordsEdges(words, sep);
    TrimSpaceUnchanged(Join(words, sep));
  }

  /** `strings.Split` with a non-empty separator: the pieces between the
      non-overlapping occurrences of `sep`, scanning left to right. */
  function Split(s: string, sep: string): (r: seq<string>)
    requires |sep| > 0
    ensures |r| >= 1
    ensures Join(r, sep) == s
    ensures forall k :: 0 <= k < |r| ==> !Contains(r[k], sep)
    decreases |s|
  {
    var i := IndexOf(s, sep);
    if i < 0 then [s]
    else
      var head := s[..i];
      var rest := Split(s[i + |sep|..], sep);
      assert !Contains(head, sep) by {
        forall j | OccursAt(head, sep, j) ensures false {
          OccursInPrefix(s, i, sep, j);
        }
      }
      assert ([head] + rest)[1..] == rest;
      assert s == head + sep + s[i + |sep|..];
      [head] + rest
  }

  /** An occurrence inside a prefix is an occurrence in the whole. */
  lemma OccursInPrefix(s: string, n: nat, sub: string, j: int)
    requires n <= |s| && OccursAt(s[..n], sub, j)
    ensures OccursAt(s, sub, j)
  {
    assert s[..n][j..j + |sub|] == s[j..j + |sub|];
  }

  /** No proper prefix of `sep` is also a suffix of it, so two occurrences
      can never overlap. */
  predicate Unbordered(sep: string) {
    forall k :: 0 < k < |sep| ==> sep[k..] != sep[..|sep| - k]
  }

  /** An occurrence straddling the end of `p` exposes a border of `sep`. */
  lemma StraddleBorder(p: string, sep: string, tail: string, j: int)
    requires 0 <= j < |p| < j + |sep|
    requires OccursAt(p + sep + tail, sep, j)
    ensures sep[|p| - j..] == sep[..|sep| - (|p| - j)]
  {
    var s := p + sep + tail;
    var k := |p| - j;
    assert s[j..j + |sep|][k..] == s[|p|..j + |sep|];
  }

  lemma IndexOfJoined(p: string, sep: string, tail: string)
    requires |sep| > 0 && Unbordered(sep) && !Contains(p, sep)
    ensures IndexOf(p + sep + tail, sep) == |p|
  {
    var s := p + sep + tail;
    assert OccursAt(s, sep, |p|) by {
      assert s[|p|..|p| + |sep|] == sep;
    }
    forall j | 0 <= j < |p| && OccursAt(s, sep, j) ensures false {
      if j + |sep| <= |p| {
        assert p[j..j + |sep|] == s[j..j + |sep|];
        assert OccursAt(p, sep, j);
      } else {
        StraddleBorder(p, sep, tail, j);
      }
    }
  }

  /** Splitting a joined list gives the list back when no piece contains the
      separator and occurrences of the separator cannot overlap. */
  lemma {:induction false} SplitJoin(parts: seq<string>, sep: string)
    requires |sep| > 0 && Unbordered(sep) && |parts| >= 1
    requires forall k :: 0 <= k < |parts| ==> !Contains(parts[k], sep)
    ensures Split(Join(parts, sep), sep) == parts
    decreases |parts|
  {
    if |parts| == 1 {
    } else {
      var tail := Join(parts[1..], sep);
      IndexOfJoined(parts[0], sep, tail);
      var s := parts[0] + sep + tail;
      assert s[|parts[0]| + |sep|..] == tail;
      SplitJoin(parts[1..], sep);
      assert [parts[0]] + parts[1..] == parts;
    }
  }

  /** `strings.ReplaceAll(s, "\r\n", "\n")`. */
  function NormalizeNewlines(s: string): (r: string)
    ensures |r| <= |s|
    decreases |s|
  {
    if |s| >= 2 && s[0] == '\r' && s[1] == '\n' then "\n" + NormalizeNewlines(s[2..])
    else if |s| == 0 then ""
    else [s[0]] + NormalizeNewlines(s[1..])
  }

  lemma {:induction false} NormalizeNewlinesNoCR(s: string)
    requires '\r' !in s
    ensures NormalizeNewlines(s) == s
    decreases |s|
  {
    if |s| > 0 {
      NormalizeNewlinesNoCR(s[1..]);
      assert [s[0]] + s[1..] == s;
    }
  }

  /** The lines of a text: `\r\n` and `\n` both end a line. */
  function Lines(s: string): (r: seq<string>)
    ensures |r| >= 1
  {
    Split(NormalizeNewlines(s), "\n")
  }

  /** A non-empty run of non-space runes, as produced by `strings.Fields`. */
  predicate IsWord(w: string) {
    |w| > 0 && forall i :: 0 <= i < |w| ==> !IsSpace(w[i])
  }

  /** Length of the leading run of non-space runes. */
  function WordLen(s: string): (n: nat)
    ensures n <= |s|
    ensures forall i :: 0 <= i < n ==> !IsSpace(s[i])
    ensures n < |s| ==> IsSpace(s[n])
    decreases |s|
  {
    if |s| == 0 || IsSpace(s[0]) then 0 else 1 + WordLen(s[1..])
  }

  /** `strings.Fields`: the maximal runs of non-space runes. */
  function Fields(s: string): (r: seq<string>)
    ensures forall k :: 0 <= k < |r| ==> IsWord(r[k])
    decreases |s|
  {
    var t := TrimLeftSpace(s);
    if |t| == 0 then []
    else
      var n := WordLen(t);
      WordPrefix(t, n);
      var rest := Fields(t[n..]);
      ConsWords(t[..n], rest);
      [t[..n]] + rest
  }

  lemma ConsWords(w: string, rest: seq<string>)
    requires IsWord(w) && forall k :: 0 <= k < |rest| ==> IsWord(rest[k])
    ensures forall k :: 0 <= k < 1 + |rest| ==> IsWord(([w] + rest)[k])
  {
  }

  /** The leading run of non-space runes of a text that starts with one is
      a word. */
  lemma WordPrefix(t: string, n: nat)
    requires 0 < |t| && !IsSpace(t[0]) && n <= |t|
    requires forall i :: 0 <= i < n ==> !IsSpace(t[i])
    requires n < |t| ==> IsSpace(t[n])
    ensures 0 < n && IsWord(t[..n])
  {
  }

  lemma TrimLeftSpaceWord(w: string, rest: string)
    requires IsWord(w)
    ensures TrimLeftSpace(w + rest) == w + rest
  {
  }

  lemma {:induction false} WordLenOfWord(w: string, rest: string)
    requires IsWord(w)
    requires |rest| == 0 || IsSpace(rest[0])
    ensures WordLen(w + rest) == |w|
    decreases |w|
  {
    if |w| > 1 {
      assert (w + rest)[1..] == w[1..] + rest;
      WordLenOfWord(w[1..], rest);
    }
  }

  lemma FieldsConsWord(w: string, rest: string)
    requires IsWord(w)
    requires |rest| == 0 || IsSpace(rest[0])
    ensures Fields(w + rest) == [w] + Fields(rest)
  {
    TrimLeftSpaceWord(w, rest);
    WordLenOfWord(w, rest);
    assert (w + rest)[..|w|] == w;
    assert (w + rest)[|w|..] == rest;
  }

  lemma FieldsLeadingSpace(t: string)
    ensures Fields(" " + t) == Fields(t)
  {
    assert (" " + t)[1..] == t;
    assert TrimLeftSpace(" " + t) == TrimLeftSpace(t);
  }

  /** Splitting single-space-joined words into fields gives the words back. */
  lemma {:induction false} FieldsJoin(words: seq<string>)
    requires forall k :: 0 <= k < |words| ==> IsWord(words[k])
    ensures Fields(Join(words, " ")) == words
    decreases |words|
  {
    if |words| == 0 {
    } else if |words| == 1 {
      FieldsConsWord(words[0], "");
      assert words[0] + "" == words[0];
    } else {
      var w, rest := words[0], words[1..];
      assert words == [w] + rest;
      JoinCons(w, rest, " ");
      FieldsJoin(rest);
      FieldsWordSpace(w, Join(rest, " "));
    }
  }

  /** A word and a blank in front of more text make one field more. */
  lemma FieldsWordSpace(w: string, t: string)
    requires IsWord(w)
    ensures Fields(w + " " + t) == [w] + Fields(t)
  {
    assert w + " " + t == w + (" " + t);
    FieldsConsWord(w, " " + t);
    FieldsLeadingSpace(t);
  }

  /** `strings.Trim(s, string(c))` for a one-rune cutset. */
  function TrimChar(s: string, c: char): (r: string)
    ensures |r| <= |s|
    ensures |r| > 0 ==> r[0] != c && r[|r| - 1] != c
    decreases |s|
  {
    if |s| > 0 && s[0] == c then TrimChar(s[1..], c)
    else if |s| > 0 && s[|s| - 1] == c then TrimChar(s[..|s| - 1], c)
    else s
  }

  /** `strings.ReplaceAll(s, string(c), rep)` for a one-rune pattern. */
  function ReplaceChar(s: string, c: char, rep: string): (r: string)
    ensures c !in s ==> r == s
    decreases |s|
  {
    if |s| == 0 then ""
    else (if s[0] == c then rep else [s[0]]) + ReplaceChar(s[1..], c, rep)
  }

  // ---------------------------------------------------------------------
  // Decimal numbers: fmt's %d and strconv.ParseInt / Atoi on 64-bit ints.

  const MaxInt64: int := 0x7fff_ffff_ffff_ffff
  const MinInt64: int := -0x8000_0000_0000_0000
  const MaxUint64: int := 0xffff_ffff_ffff_ffff

  predicate IsDigit(c: char) {
    '0' <= c <= '9'
  }

  function DigitChar(d: nat): (c: char)
    requires d < 10
    ensures IsDigit(c)
  {
    ('0' as int + d) as char
  }

  function DigitValue(c: char): nat
    requires IsDigit(c)
  {
    c as int - '0' as int
  }

  /** `fmt.Sprintf("%d", n)` for a non-negative `n`. */
  function NatDecimal(n: nat): (r: string)
    ensures |r| >= 1
    ensures forall i :: 0 <= i < |r| ==> IsDigit(r[i])
    decreases n
  {
    if n < 10 then [DigitChar(n)] else NatDecimal(n / 10) + [DigitChar(n % 10)]
  }

  /** `fmt.Sprintf("%d", n)`. */
  function Decimal(n: int): string {
    if n < 0 then "-" + NatDecimal(-n) else NatDecimal(n)
  }

  /** Printed numbers have no blanks at their edges. */
  lemma DecimalUnpadded(n: int)
    ensures |Decimal(n)| > 0 && !IsSpace(Decimal(n)[0]) && !IsSpace(Decimal(n)[|Decimal(n)| - 1])
  {
    var m: nat := if n < 0 then -n else n;
    var digits := NatDecimal(m);
    assert |digits| > 0 && IsDigit(digits[|digits| - 1]) && IsDigit(digits[0]);
    if n < 0 {
      assert Decimal(n) == "-" + digits;
    }
  }

  /** A printed number is one field. */
  lemma DecimalIsWord(n: int)
    ensures IsWord(Decimal(n))
  {
    var m: nat := if n < 0 then -n else n;
    var digits := NatDecimal(m);
    if n < 0 {
      assert Decimal(n) == "-" + digits;
      assert forall i :: 1 <= i < |Decimal(n)| ==> Decimal(n)[i] == digits[i - 1];
    }
  }

  /** The value of a string of decimal digits. */
  function DigitsValue(s: string): nat
    requires forall i :: 0 <= i < |s| ==> IsDigit(s[i])
  {
    if |s| == 0 then 0 else DigitsValue(s[..|s| - 1]) * 10 + DigitValue(s[|s| - 1])
  }

  lemma {:induction false} DigitsValueOfDecimal(n: nat)
    ensures DigitsValue(NatDecimal(n)) == n
    decreases n
  {
    if n >= 10 {
      DigitsValueOfDecimal(n / 10);
      var s := NatDecimal(n);
      assert s[..|s| - 1] == NatDecimal(n / 10);
    }
  }

  /** Length of the leading run of decimal digits. */
  function DigitRun(s: string): (n: nat)
    ensures n <= |s|
    ensures forall i :: 0 <= i < n ==> IsDigit(s[i])
    ensures n < |s| ==> !IsDigit(s[n])
    decreases |s|
  {
    if |s| == 0 || !IsDigit(s[0]) then 0 else 1 + DigitRun(s[1..])
  }

  lemma {:induction false} DigitRunAll(s: string)
    requires forall i :: 0 <= i < |s| ==> IsDigit(s[i])
    ensures DigitRun(s) == |s|
    decreases |s|
  {
    if |s| > 0 {
      DigitRunAll(s[1..]);
    }
  }

  datatype NumError = NoError | SyntaxError | RangeError

  /** A parse result the way Go returns it: a value alongside an error.
      On a syntax error the value is 0; on a range error it is clamped. */
  datatype Parsed = Parsed(value: int, err: NumError)

  /** `strconv.ParseUint(s, 10, 64)`. Digits are consumed left to right and
      the first overflow or the first non-digit, whichever comes first,
      decides the error. */
  function ParseUint(s: string): (r: Parsed)
    ensures r.err == NoError ==> 0 <= r.value <= MaxUint64 && |s| > 0
    ensures r.err == SyntaxError ==> r.value == 0
  {
    if |s| == 0 then Parsed(0, SyntaxError)
    else
      var k := DigitRun(s);
      if DigitsValue(s[..k]) > MaxUint64 then Parsed(MaxUint64, RangeError)
      else if k < |s| then Parsed(0, SyntaxError)
      else
        assert s[..k] == s;
        Parsed(DigitsValue(s), NoError)
  }

  /** `strconv.ParseInt(s, 10, 64)`, which is also `strconv.Atoi` on a 64-bit
      platform. */
  function ParseInt(s: string): (r: Parsed)
    ensures MinInt64 <= r.value <= MaxInt64
    ensures r.err == SyntaxError ==> r.value == 0
    ensures r.err == NoError ==> |s| > 0
  {
    if |s| == 0 then Parsed(0, SyntaxError)
    else
      var neg := s[0] == '-';
      var body := if s[0] == '+' || s[0] == '-' then s[1..] else s;
      var u := ParseUint(body);
      if u.err == SyntaxError then Parsed(0, SyntaxError)
      else if u.err == RangeError then Parsed(if neg then MinInt64 else MaxInt64, RangeError)
      else if !neg && u.value > MaxInt64 then Parsed(MaxInt64, RangeError)
      else if neg && u.value > -MinInt64 then Parsed(MinInt64, RangeError)
      else Parsed(if neg then -u.value else u.value, NoError)
  }

  /** Printing a 64-bit integer with %d and parsing it back is lossless. */
  lemma ParseIntDecimal(n: int)
    requires MinInt64 <= n <= MaxInt64
    ensures ParseInt(Decimal(n)) == Parsed(n, NoError)
  {
    var m: nat := if n < 0 then -n else n;
    var digits := NatDecimal(m);
    DigitsValueOfDecimal(m);
    DigitRunAll(digits);
    assert digits[..|digits|] == digits;
    if n < 0 {
      assert Decimal(n)[1..] == digits;
    } else {
      assert Decimal(n) == digits;
    }
  }
}
