/**
 * The Python string operations the pipeline relies on, over `string` (= seq<char>):
 * substring search (`in`, `str.contains` with a pattern free of regex metacharacters,
 * `str.split(sep)`), `str.endswith`, `str.replace`, `str.split()` on whitespace,
 * `' '.join`, `str.rstrip`, ASCII `str.lower`, digit extraction and decimal numbers.
 */
module Text {
  import opened Wrappers

  const Nbsp: char := '\U{A0}'

  /** Python's `str.isspace()`: the characters `str.split()` with no argument splits on. */
  predicate IsSpace(c: char) {
    c == ' ' || ('\t' <= c <= '\r') || ('\U{1C}' <= c <= '\U{1F}') || c == '\U{85}' || c == Nbsp
    || c == '\U{1680}' || ('\U{2000}' <= c <= '\U{200A}') || c == '\U{2028}' || c == '\U{2029}'
    || c == '\U{202F}' || c == '\U{205F}' || c == '\U{3000}'
  }

  /** The whitespace pandas' numeric parser skips around a number. */
  predicate IsAsciiSpace(c: char) {
    c == ' ' || ('\t' <= c <= '\r')
  }

  predicate IsDigit(c: char) {
    '0' <= c <= '9'
  }

  // ---------------------------------------------------------------- substrings

  predicate OccursAt(s: string, t: string, i: nat) {
    i + |t| <= |s| && s[i..i + |t|] == t
  }

  /** The first position at or after `i` where `t` occurs in `s`. */
  function FindFrom(s: string, t: string, i: nat): (r: Option<nat>)
    requires i <= |s|
    ensures r.Some? ==> i <= r.value && OccursAt(s, t, r.value)
    ensures r.Some? ==> forall k :: i <= k < r.value ==> !OccursAt(s, t, k)
    ensures r.None? ==> forall k :: i <= k ==> !OccursAt(s, t, k)
    decreases |s| - i
  {
    if i + |t| > |s| then None
    else if s[i..i + |t|] == t then Some(i)
    else FindFrom(s, t, i + 1)
  }

  /** Python's `s.find(t)`, with None for -1. */
  function Find(s: string, t: string): Option<nat> {
    FindFrom(s, t, 0)
  }

  /** Python's `t in s`. */
  predicate Contains(s: string, t: string) {
    Find(s, t).Some?
  }

  /** Every character of a substring occurs in the text. */
  lemma ContainsChars(s: string, t: string)
    ensures Contains(s, t) ==> forall c :: c in t ==> c in s
  {
    if Contains(s, t) {
      var i := Find(s, t).value;
      assert s[i..i + |t|] == t;
      forall c | c in t ensures c in s {
        var k :| 0 <= k < |t| && t[k] == c;
        assert s[i + k] == c;
      }
    }
  }

  /** Python's `s.endswith(t)`. */
  predicate EndsWith(s: string, t: string) {
    |t| <= |s| && s[|s| - |t|..] == t
  }

  /** Python's `any(w in s for w in words)`, which is what `str.contains('|'.join(words))` does
      when no word holds a regular-expression metacharacter. */
  predicate ContainsAny(s: string, words: seq<string>) {
    exists k :: 0 <= k < |words| && Contains(s, words[k])
  }

  /**
   * Python's `s.split(sep)[1]`: the text between the first and the second occurrence of
   * `sep` (or the end); None where Python raises IndexError because `sep` does not occur.
   */
  function SecondField(s: string, sep: string): (r: Option<string>)
    requires |sep| > 0
    ensures r.None? <==> !Contains(s, sep)
    ensures r.Some? ==> !Contains(r.value, sep)
    ensures r.Some? ==> forall c :: c in r.value ==> c in s
  {
    match Find(s, sep)
    case None => None
    case Some(i) =>
      var rest := s[i + |sep|..];
      match Find(rest, sep)
      case None => Some(rest)
      case Some(j) =>
        assert forall k: nat :: OccursAt(rest[..j], sep, k) ==> OccursAt(rest, sep, k) by {
          forall k: nat | OccursAt(rest[..j], sep, k) ensures OccursAt(rest, sep, k) {
            assert rest[..j][k..k + |sep|] == rest[k..k + |sep|];
          }
        }
        Some(rest[..j])
  }

  /**
   * The field is exactly the text from the end of the first separator up to the next
   * separator at or after it, or up to the end of `s` when there is none.
   */
  lemma SecondFieldBetween(s: string, sep: string)
    requires |sep| > 0 && Contains(s, sep)
    ensures var i := Find(s, sep).value;
      var f := SecondField(s, sep).value;
      var j := i + |sep| + |f|;
      j <= |s| && s[i + |sep|..j] == f
      && (j == |s| || OccursAt(s, sep, j))
      && forall k :: i + |sep| <= k < j ==> !OccursAt(s, sep, k)
  {
    var i := Find(s, sep).value;
    var d := i + |sep|;
    var rest := s[d..];
    OccursShift(s, sep, d);
    var f := SecondField(s, sep).value;
    match Find(rest, sep)
    case None =>
      assert f == rest;
      NoOccurrenceAfter(s, sep, d, |s|);
    case Some(m) =>
      assert f == rest[..m];
      assert s[d..d + m] == rest[..m];
      assert OccursAt(rest, sep, m);
      NoOccurrenceAfter(s, sep, d, d + m);
  }

  /** No occurrence in the suffix before position `e - d` means none in `s` from `d` to `e`. */
  lemma NoOccurrenceAfter(s: string, sep: string, d: nat, e: nat)
    requires d <= e <= |s| && d <= |s|
    requires forall k: nat :: OccursAt(s[d..], sep, k) <==> OccursAt(s, sep, d + k)
    requires forall k: nat :: k < e - d ==> !OccursAt(s[d..], sep, k)
    ensures forall k :: d <= k < e ==> !OccursAt(s, sep, k)
  {
    forall k | d <= k < e ensures !OccursAt(s, sep, k) {
      var k': nat := k - d;
      assert d + k' == k;
      assert !OccursAt(s[d..], sep, k');
    }
  }

  /** An occurrence in a suffix is an occurrence in the whole text, shifted. */
  lemma OccursShift(s: string, t: string, d: nat)
    requires d <= |s|
    ensures forall k: nat :: OccursAt(s[d..], t, k) <==> OccursAt(s, t, d + k)
  {
    forall k: nat ensures OccursAt(s[d..], t, k) <==> OccursAt(s, t, d + k) {
      if d + k + |t| <= |s| {
        assert s[d..][k..k + |t|] == s[d + k..d + k + |t|];
      }
    }
  }

  /** Python's `s.split('/')[-1]`: the text after the last `/`. */
  function Basename(s: string): (r: string)
    ensures '/' !in r
    ensures |r| <= |s| && r == s[|s| - |r|..]
    ensures |r| < |s| ==> s[|s| - |r| - 1] == '/'
  {
    if s == [] || s[|s| - 1] == '/' then [] else Basename(s[..|s| - 1]) + [s[|s| - 1]]
  }

  /** A key directly under a directory prefix has its own name as basename. */
  lemma {:induction false} BasenameUnder(dir: string, name: string)
    requires dir == [] || dir[|dir| - 1] == '/'
    requires '/' !in name
    ensures Basename(dir + name) == name
    decreases |name|
  {
    var s := dir + name;
    if name == [] {
      assert s == dir;
    } else {
      var last := name[|name| - 1];
      var init := name[..|name| - 1];
      assert last in name;
      assert s[|s| - 1] == last;
      assert s[..|s| - 1] == dir + init;
      assert '/' !in init by {
        assert forall c :: c in init ==> c in name;
      }
      BasenameUnder(dir, init);
      assert Basename(s) == Basename(dir + init) + [last];
      assert init + [last] == name;
    }
  }

  // ---------------------------------------------------------------- replacing

  /** Python's `s.replace(a, b)` for single characters. */
  function ReplaceChar(s: string, a: char, b: char): (r: string)
    ensures |r| == |s|
    ensures forall i :: 0 <= i < |s| ==> r[i] == if s[i] == a then b else s[i]
  {
    seq(|s|, i requires 0 <= i < |s| => if s[i] == a then b else s[i])
  }

  lemma ReplaceCharRemoves(s: string, a: char, b: char)
    requires a != b
    ensures a !in ReplaceChar(s, a, b)
    ensures b in s ==> b in ReplaceChar(s, a, b)
  {
    var r := ReplaceChar(s, a, b);
    if b in s {
      var i :| 0 <= i < |s| && s[i] == b;
      assert r[i] == b;
    }
  }

  lemma ReplaceCharAbsent(s: string, a: char, b: char)
    requires a !in s
    ensures ReplaceChar(s, a, b) == s
  {
  }

  /** Python's `s.replace(t, '')`: removes the occurrences of `t` found scanning left to right. */
  function RemoveAll(s: string, t: string): (r: string)
    requires |t| > 0
    ensures |r| <= |s|
    decreases |s|
  {
    if |s| < |t| then s
    else if s[..|t|] == t then RemoveAll(s[|t|..], t)
    else [s[0]] + RemoveAll(s[1..], t)
  }

  /** Text that does not hold the first character of `t` passes through the removal untouched. */
  lemma {:induction false} RemoveAllSkips(a: string, b: string, t: string)
    requires |t| > 0 && t[0] !in a
    ensures RemoveAll(a + b, t) == a + RemoveAll(b, t)
    decreases |a|
  {
    if a == [] {
      assert a + b == b;
    } else {
      var s := a + b;
      assert s[0] == a[0];
      if |s| < |t| {
        assert |b| < |t|;
        assert RemoveAll(b, t) == b;
      } else {
        assert s[..|t|][0] == a[0];
        assert s[..|t|] != t;
        assert RemoveAll(s, t) == [a[0]] + RemoveAll(s[1..], t);
        assert s[1..] == a[1..] + b;
        assert t[0] !in a[1..] by {
          assert forall c :: c in a[1..] ==> c in a;
        }
        RemoveAllSkips(a[1..], b, t);
        var tail := RemoveAll(b, t);
        assert [a[0]] + (a[1..] + tail) == ([a[0]] + a[1..]) + tail;
        assert [a[0]] + a[1..] == a;
      }
    }
  }

  // ---------------------------------------------------------------- whitespace split and join

  /** The maximal run of non-space characters at the start of `s`. */
  function LeadingWord(s: string): (r: string)
    ensures |r| <= |s| && r == s[..|r|]
    ensures forall c :: c in r ==> !IsSpace(c)
    ensures |r| < |s| ==> IsSpace(s[|r|])
    ensures s != [] && !IsSpace(s[0]) ==> |r| > 0
  {
    if s == [] || IsSpace(s[0]) then [] else [s[0]] + LeadingWord(s[1..])
  }

  /** A word of `Split`: a non-empty run of non-space characters. */
  predicate IsWord(w: string) {
    w != [] && forall c :: c in w ==> !IsSpace(c)
  }

  /** Python's `s.split()`: the non-empty runs of non-space characters, in order. */
  function Split(s: string): (r: seq<string>)
    ensures forall i :: 0 <= i < |r| ==> IsWord(r[i])
    decreases |s|
  {
    if s == [] then []
    else if IsSpace(s[0]) then Split(s[1..])
    else
      var w := LeadingWord(s);
      [w] + Split(s[|w|..])
  }

  /** Python's `sep.join(words)`. */
  function Join(words: seq<string>, sep: string): string {
    if words == [] then [] else if |words| == 1 then words[0] else words[0] + sep + Join(words[1..], sep)
  }

  /** Python's `s.rstrip(c)`. */
  function RStrip(s: string, c: char): (r: string)
    ensures r <= s
    ensures r == [] || r[|r| - 1] != c
    ensures forall i :: |r| <= i < |s| ==> s[i] == c
  {
    if s != [] && s[|s| - 1] == c then RStrip(s[..|s| - 1], c) else s
  }

  /** Python's `s.strip()` restricted to ASCII whitespace. */
  function StripAscii(s: string): (r: string)
    ensures r == [] || (!IsAsciiSpace(r[0]) && !IsAsciiSpace(r[|r| - 1]))
    decreases |s|
  {
    if s == [] then []
    else if IsAsciiSpace(s[0]) then StripAscii(s[1..])
    else if IsAsciiSpace(s[|s| - 1]) then StripAscii(s[..|s| - 1])
    else s
  }

  /** Python's `str.lower()` on ASCII letters. */
  function ToLower(s: string): (r: string)
    ensures |r| == |s|
    ensures forall i :: 0 <= i < |s| ==> r[i] == if 'A' <= s[i] <= 'Z' then (s[i] as int + 32) as char else s[i]
  {
    seq(|s|, i requires 0 <= i < |s| => if 'A' <= s[i] <= 'Z' then (s[i] as int + 32) as char else s[i])
  }

  // ---------------------------------------------------------------- numbers

  /** The digit characters of `s`, in order. */
  function Digits(s: string): (r: string)
    ensures |r| <= |s|
    ensures forall c :: c in r <==> c in s && IsDigit(c)
  {
    if s == [] then [] else (if IsDigit(s[0]) then [s[0]] else []) + Digits(s[1..])
  }

  lemma {:induction false} DigitsAppend(a: string, b: string)
    ensures Digits(a + b) == Digits(a) + Digits(b)
    decreases |a|
  {
    if a == [] {
      assert a + b == b;
    } else {
      assert (a + b)[0] == a[0];
      assert (a + b)[1..] == a[1..] + b;
      DigitsAppend(a[1..], b);
    }
  }

  /** The value of a string of decimal digits; Python's `int(d)` when `d` is non-empty. */
  function NumberValue(d: string): nat
    requires forall c :: c in d ==> IsDigit(c)
  {
    if d == [] then 0
    else
      assert d[|d| - 1] in d && IsDigit(d[|d| - 1]);
      10 * NumberValue(d[..|d| - 1]) + (d[|d| - 1] as int - '0' as int)
  }

  /** The decimal rendering of `n`, as Python's `str(n)`. */
  function Show(n: nat): (r: string)
    ensures r != [] && forall c :: c in r ==> IsDigit(c)
  {
    if n < 10 then [('0' as int + n) as char] else Show(n / 10) + [('0' as int + n % 10) as char]
  }

  lemma {:induction false} ShowNumberValue(n: nat)
    ensures NumberValue(Show(n)) == n
  {
    if n >= 10 {
      var s := Show(n);
      assert s[..|s| - 1] == Show(n / 10);
      ShowNumberValue(n / 10);
    }
  }

  /** The longest run of digits at the start of `s`. */
  function LeadingDigits(s: string): (r: string)
    ensures |r| <= |s| && r == s[..|r|]
    ensures forall c :: c in r ==> IsDigit(c)
    ensures |r| < |s| ==> !IsDigit(s[|r|])
  {
    if s == [] || !IsDigit(s[0]) then [] else [s[0]] + LeadingDigits(s[1..])
  }

  lemma {:induction false} LeadingDigitsAll(s: string)
    requires forall c :: c in s ==> IsDigit(c)
    ensures LeadingDigits(s) == s
  {
    if s != [] {
      assert s[0] in s;
      assert forall c :: c in s[1..] ==> c in s;
      LeadingDigitsAll(s[1..]);
    }
  }

  /** Trailing-character stripping leaves text that does not end in that character alone. */
  lemma RStripAbsent(s: string, c: char)
    requires c !in s
    ensures RStrip(s, c) == s
  {
    if s != [] {
      assert s[|s| - 1] in s;
    }
  }

  /** One trailing `c` after text not ending in `c` is stripped, and nothing more. */
  lemma RStripOnce(s: string, c: char)
    requires s == [] || s[|s| - 1] != c
    ensures RStrip(s + [c], c) == s
  {
    assert (s + [c])[..|s + [c]| - 1] == s;
  }

  /** One step of `Split`: a leading word followed by nothing or by whitespace. */
  lemma SplitStep(w: string, rest: string)
    requires IsWord(w)
    requires rest == [] || IsSpace(rest[0])
    ensures Split(w + rest) == [w] + Split(if rest == [] then [] else rest[1..])
  {
    LeadingWordOf(w, rest);
    var s := w + rest;
    assert s[0] == w[0] && w[0] in w;
    assert s[|w|..] == rest;
  }

  lemma {:induction false} LeadingWordOf(w: string, rest: string)
    requires forall c :: c in w ==> !IsSpace(c)
    requires rest == [] || IsSpace(rest[0])
    ensures LeadingWord(w + rest) == w
    decreases |w|
  {
    if w == [] {
      assert w + rest == rest;
    } else {
      var s := w + rest;
      assert s[0] == w[0] && w[0] in w;
      assert s[1..] == w[1..] + rest;
      assert forall c :: c in w[1..] ==> c in w;
      LeadingWordOf(w[1..], rest);
      assert !IsSpace(s[0]);
      assert LeadingWord(s) == [s[0]] + LeadingWord(s[1..]);
      assert [w[0]] + w[1..] == w;
    }
  }

  /** Splitting the space-joined words gives the words back. */
  lemma {:induction false} SplitJoin(words: seq<string>)
    requires forall i :: 0 <= i < |words| ==> IsWord(words[i])
    ensures Split(Join(words, " ")) == words
    decreases |words|
  {
    if words == [] {
    } else if |words| == 1 {
      var w := words[0];
      SplitStep(w, []);
      assert w + [] == w;
      assert Split([]) == [];
      assert [w] == words;
    } else {
      var w := words[0];
      var rest := words[1..];
      assert forall i :: 0 <= i < |rest| ==> rest[i] == words[i + 1];
      var tail := Join(rest, " ");
      JoinStep(words, " ");
      SplitStep(w, " " + tail);
      assert (" " + tail)[1..] == tail;
      SplitJoin(rest);
      assert [w] + rest == words;
    }
  }

  /** Joining at least two words puts the first, then the separator, then the rest joined. */
  lemma JoinStep(words: seq<string>, sep: string)
    requires |words| >= 2
    ensures Join(words, sep) == words[0] + (sep + Join(words[1..], sep))
  {
    assert words[0] + sep + Join(words[1..], sep) == words[0] + (sep + Join(words[1..], sep));
  }

  /** A character absent from `s` is absent from every word of `s`. */
  lemma {:induction false} SplitAbsent(s: string, c: char)
    requires c !in s
    ensures forall i :: 0 <= i < |Split(s)| ==> c !in Split(s)[i]
    decreases |s|
  {
    if s != [] {
      if IsSpace(s[0]) {
        assert c !in s[1..];
        SplitAbsent(s[1..], c);
      } else {
        var w := LeadingWord(s);
        assert c !in s[|w|..];
        SplitAbsent(s[|w|..], c);
        assert c !in w;
        var r := Split(s);
        assert r == [w] + Split(s[|w|..]);
        assert forall i :: 1 <= i < |r| ==> r[i] == Split(s[|w|..])[i - 1];
      }
    }
  }

  /** A character in neither the words nor the separator is not in their join. */
  lemma {:induction false} JoinAbsent(words: seq<string>, sep: string, c: char)
    requires c !in sep && forall i :: 0 <= i < |words| ==> c !in words[i]
    ensures c !in Join(words, sep)
    decreases |words|
  {
    if |words| > 1 {
      assert forall i :: 0 <= i < |words[1..]| ==> words[1..][i] == words[i + 1];
      JoinAbsent(words[1..], sep, c);
      assert c !in words[0];
    }
  }

  /** A text that starts with the separator and holds it nowhere else: the second field is
      everything after it. */
  lemma SecondFieldLeading(sep: string, rest: string)
    requires |sep| > 0 && !Contains(rest, sep)
    ensures SecondField(sep + rest, sep) == Some(rest)
  {
    var s := sep + rest;
    assert s[..|sep|] == sep;
    assert OccursAt(s, sep, 0);
    assert Find(s, sep) == Some(0);
    assert s[|sep|..] == rest;
  }

  // ---------------------------------------------------------------- what Split keeps

  /** Text made of space characters only. */
  predicate AllSpace(g: string) {
    forall c :: c in g ==> IsSpace(c)
  }

  /** Gaps and words, alternately: `gaps[0] + words[0] + gaps[1] + ... + words[n-1] + gaps[n]`. */
  function Weave(gaps: seq<string>, words: seq<string>): string
    requires |gaps| == |words| + 1
    decreases |words|
  {
    if words == [] then gaps[0] else gaps[0] + words[0] + Weave(gaps[1..], words[1..])
  }

  /**
   * `s` is `words` with runs of space around and between them, the runs between two words
   * non-empty; a text starting with a space starts with a non-empty run.
   */
  predicate Decomposes(s: string, words: seq<string>, gaps: seq<string>) {
    |gaps| == |words| + 1
    && (forall i :: 0 <= i < |gaps| ==> AllSpace(gaps[i]))
    && (forall i :: 0 < i < |gaps| - 1 ==> gaps[i] != [])
    && Weave(gaps, words) == s
    && (s != [] && IsSpace(s[0]) ==> gaps[0] != [])
  }

  /**
   * `str.split()` loses only spaces: the text is its words with runs of space around and between
   * them, and a run between two words is never empty, so each word is a maximal run of
   * non-space characters.
   */
  lemma {:induction false} SplitDecomposes(s: string) returns (gaps: seq<string>)
    ensures Decomposes(s, Split(s), gaps)
    decreases |s|
  {
    if s == [] {
      gaps := [[]];
    } else if IsSpace(s[0]) {
      var g := SplitDecomposes(s[1..]);
      gaps := DecomposesSpace(s, g);
    } else {
      var g := SplitDecomposes(s[|LeadingWord(s)|..]);
      gaps := DecomposesWord(s, g);
    }
  }

  lemma DecomposesSpace(s: string, g: seq<string>) returns (gaps: seq<string>)
    requires s != [] && IsSpace(s[0]) && Decomposes(s[1..], Split(s[1..]), g)
    ensures Decomposes(s, Split(s), gaps)
  {
    var words := Split(s[1..]);
    assert Split(s) == words;
    gaps := [[s[0]] + g[0]] + g[1..];
    WeaveLeading(s[0], g, words);
    assert [s[0]] + s[1..] == s;
    forall i | 0 <= i < |gaps| ensures AllSpace(gaps[i]) {
      if i == 0 {
        assert forall c :: c in gaps[0] ==> c == s[0] || c in g[0];
      } else {
        assert gaps[i] == g[i];
      }
    }
    forall i | 0 < i < |gaps| - 1 ensures gaps[i] != [] {
      assert gaps[i] == g[i];
    }
  }

  lemma DecomposesWord(s: string, g: seq<string>) returns (gaps: seq<string>)
    requires s != [] && !IsSpace(s[0])
    requires Decomposes(s[|LeadingWord(s)|..], Split(s[|LeadingWord(s)|..]), g)
    ensures Decomposes(s, Split(s), gaps)
  {
    var w := LeadingWord(s);
    var rest := s[|w|..];
    var words := Split(rest);
    assert Split(s) == [w] + words;
    gaps := [[]] + g;
    WeaveWord(w, g, words);
    assert w + rest == s;
    forall i | 0 < i < |gaps| ensures gaps[i] == g[i - 1] && AllSpace(gaps[i]) {
    }
    if words != [] {
      assert rest != [] && IsSpace(rest[0]);
    }
  }

  lemma WeaveLeading(c: char, g: seq<string>, words: seq<string>)
    requires |g| == |words| + 1
    ensures Weave([[c] + g[0]] + g[1..], words) == [c] + Weave(g, words)
  {
    var gaps := [[c] + g[0]] + g[1..];
    assert gaps[1..] == g[1..];
    if words != [] {
      var tail := Weave(g[1..], words[1..]);
      assert [c] + g[0] + words[0] + tail == [c] + (g[0] + words[0] + tail);
    }
  }

  lemma WeaveWord(w: string, g: seq<string>, words: seq<string>)
    requires |g| == |words| + 1
    ensures Weave([[]] + g, [w] + words) == w + Weave(g, words)
  {
    assert ([[]] + g)[1..] == g;
    assert ([w] + words)[1..] == words;
    assert [] + w == w;
  }
}
