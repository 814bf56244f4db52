/** String operations of the Rust standard library that the toolkit relies on
    (`char::is_whitespace`, `str::contains`, `str::split`, `str::lines`,
    `str::split_whitespace`, `str::trim_start`, `str::trim_end_matches`,
    `str::len` and the decimal `Display` of `usize`), written as functions
    over `seq<char>` with contracts that characterise their results. */
module Text {

  datatype Option<T> = None | Some(value: T)

  /** Rust's `char::is_whitespace`: the Unicode White_Space property. */
  predicate IsWhitespace(c: char)
  {
    || ('\t' <= c <= '\r')
    || c == ' '
    || c == '\U{0085}'
    || c == '\U{00A0}'
    || c == '\U{1680}'
    || ('\U{2000}' <= c <= '\U{200A}')
    || c == '\U{2028}'
    || c == '\U{2029}'
    || c == '\U{202F}'
    || c == '\U{205F}'
    || c == '\U{3000}'
  }

  /** `t` occurs in `s` starting at index `i`. */
  predicate OccursAt(s: string, t: string, i: int)
  {
    0 <= i && i + |t| <= |s| && s[i..i + |t|] == t
  }

  /** `s.contains(t)` for a string pattern. */
  function HasSubstring(s: string, t: string): bool
    decreases |s|
  {
    if |s| < |t| then false
    else if s[..|t|] == t then true
    else HasSubstring(s[1..], t)
  }

  /** `HasSubstring` holds exactly when `t` occurs somewhere in `s`. */
  lemma {:induction false} HasSubstringOccurs(s: string, t: string)
    ensures HasSubstring(s, t) <==> exists i :: OccursAt(s, t, i)
    decreases |s|
  {
    if |s| < |t| {
    } else if s[..|t|] == t {
      assert OccursAt(s, t, 0);
    } else {
      HasSubstringOccurs(s[1..], t);
      if HasSubstring(s[1..], t) {
        var i :| OccursAt(s[1..], t, i);
        assert s[i + 1..i + 1 + |t|] == s[1..][i..i + |t|];
        assert OccursAt(s, t, i + 1);
      }
      if exists i :: OccursAt(s, t, i) {
        var i :| OccursAt(s, t, i);
        assert i != 0;
        assert s[1..][i - 1..i - 1 + |t|] == s[i..i + |t|];
        assert OccursAt(s[1..], t, i - 1);
      }
    }
  }

  /** A pattern one of whose characters is missing from `s` cannot occur in `s`. */
  lemma NoSubstringWithoutChar(s: string, t: string, c: char)
    requires c in t && c !in s
    ensures !HasSubstring(s, t)
  {
    HasSubstringOccurs(s, t);
    var j :| 0 <= j < |t| && t[j] == c;
    forall i | 0 <= i && i + |t| <= |s| ensures !OccursAt(s, t, i) {
      assert s[i..i + |t|][j] == s[i + j];
    }
  }

  /** Where `s.split(c)` makes its first cut: the index of the first
      occurrence of `c`, if any. */
  function IndexOf(s: string, c: char): (r: Option<nat>)
    ensures r.None? <==> c !in s
    ensures r.Some? ==> r.value < |s| && s[r.value] == c && c !in s[..r.value]
  {
    if s == [] then None
    else if s[0] == c then Some(0)
    else
      match IndexOf(s[1..], c)
      case None => None
      case Some(i) =>
        assert s[..i + 1] == [s[0]] + s[1..][..i];
        Some(i + 1)
  }

  /** The first `c` in `a + [c] + rest` is the one after `a` when `a` has none. */
  lemma IndexOfAfter(a: string, c: char, rest: string)
    requires c !in a
    ensures IndexOf(a + [c] + rest, c) == Some(|a|)
  {
    var s := a + [c] + rest;
    assert s[|a|] == c;
    var i := IndexOf(s, c).value;
    assert forall k :: 0 <= k < |a| ==> s[k] == a[k];
  }

  /** The text before the first `c`, or all of `s` when there is none: the
      first item of `s.split(c)`. */
  function BeforeFirst(s: string, c: char): (r: string)
    ensures c !in r
    ensures |r| <= |s| && s[..|r|] == r
    ensures |r| < |s| ==> s[|r|] == c
  {
    match IndexOf(s, c)
    case None => s
    case Some(i) => s[..i]
  }

  lemma BeforeFirstOf(a: string, c: char, rest: string)
    requires c !in a
    ensures BeforeFirst(a + [c] + rest, c) == a
  {
    IndexOfAfter(a, c, rest);
  }

  /** A line terminated by "\r\n" loses its '\r' together with the '\n'. */
  function DropCR(line: string): string
  {
    if |line| > 0 && line[|line| - 1] == '\r' then line[..|line| - 1] else line
  }

  /** `s.lines()`: split at each '\n'; a line ended by "\r\n" loses the '\r';
      a final line without a terminator is kept as it is, and a trailing
      line terminator yields no empty final line. */
  function Lines(s: string): seq<string>
    decreases |s|
  {
    if s == [] then []
    else
      match IndexOf(s, '\n')
      case None => [s]
      case Some(i) => [DropCR(s[..i])] + Lines(s[i + 1..])
  }

  /** No line holds a '\n'. */
  lemma {:induction false} LinesHaveNoNewline(s: string)
    ensures forall j :: 0 <= j < |Lines(s)| ==> '\n' !in Lines(s)[j]
    decreases |s|
  {
    if s != [] {
      match IndexOf(s, '\n')
      case None =>
      case Some(i) =>
        LinesHaveNoNewline(s[i + 1..]);
        assert '\n' !in s[..i];
    }
  }

  /** Splitting off one terminated line: the partner of `Lines` used to
      compute the lines of a text assembled from pieces. */
  lemma LinesCons(a: string, rest: string)
    requires '\n' !in a
    ensures Lines(a + "\n" + rest) == [DropCR(a)] + Lines(rest)
  {
    var s := a + "\n" + rest;
    assert s[..|a|] == a;
    assert s[|a|] == '\n';
    assert s[|a| + 1..] == rest;
  }

  /** A "\r\n"-terminated line comes back without its terminator. */
  lemma LinesConsCRLF(a: string, rest: string)
    requires '\n' !in a
    ensures Lines(a + "\r\n" + rest) == [a] + Lines(rest)
  {
    assert a + "\r\n" + rest == (a + "\r") + "\n" + rest;
    LinesCons(a + "\r", rest);
    assert DropCR(a + "\r") == a;
  }

  /** The lines `ls`, each terminated by "\r\n". */
  function JoinCRLF(ls: seq<string>): string
  {
    if ls == [] then "" else ls[0] + "\r\n" + JoinCRLF(ls[1..])
  }

  /** `Lines` takes apart what `JoinCRLF` put together. */
  lemma {:induction false} LinesJoinCRLF(ls: seq<string>, rest: string)
    requires forall j :: 0 <= j < |ls| ==> '\n' !in ls[j]
    ensures Lines(JoinCRLF(ls) + rest) == ls + Lines(rest)
  {
    if ls != [] {
      LinesJoinCRLFCons(ls, rest);
      assert forall j :: 0 <= j < |ls[1..]| ==> ls[1..][j] == ls[j + 1];
      LinesJoinCRLF(ls[1..], rest);
      ConsDrop(ls, Lines(rest));
    } else {
      assert JoinCRLF(ls) + rest == rest;
    }
  }

  /** The first line of `JoinCRLF(ls) + rest` is `ls[0]`. */
  lemma LinesJoinCRLFCons(ls: seq<string>, rest: string)
    requires ls != [] && '\n' !in ls[0]
    ensures Lines(JoinCRLF(ls) + rest) == [ls[0]] + Lines(JoinCRLF(ls[1..]) + rest)
  {
    var tail := JoinCRLF(ls[1..]) + rest;
    assert JoinCRLF(ls) + rest == ls[0] + "\r\n" + tail;
    LinesConsCRLF(ls[0], tail);
  }

  /** The parts on either side of a separator, taken back out. */
  lemma AroundSeparator<T>(a: seq<T>, x: T, b: seq<T>)
    ensures (a + [x] + b)[..|a|] == a
    ensures (a + [x] + b)[|a| + 1..|a + [x] + b|] == b
  {
  }

  /** A non-empty sequence is its first element followed by the rest. */
  lemma ConsDrop<T>(s: seq<T>, t: seq<T>)
    requires s != []
    ensures [s[0]] + (s[1..] + t) == s + t
  {
  }

  /** A text without '\n' is one line, or none when it is empty. */
  lemma LinesSingle(a: string)
    requires '\n' !in a
    ensures Lines(a) == if a == [] then [] else [a]
  {
  }

  /** A word of `split_whitespace`: non-empty and free of whitespace. */
  predicate IsWord(w: string)
  {
    w != [] && forall i :: 0 <= i < |w| ==> !IsWhitespace(w[i])
  }

  /** Length of the leading run of non-whitespace characters. */
  function WordEnd(s: string): (n: nat)
    ensures n <= |s|
    ensures forall i :: 0 <= i < n ==> !IsWhitespace(s[i])
    ensures n < |s| ==> IsWhitespace(s[n])
  {
    if s == [] || IsWhitespace(s[0]) then 0 else 1 + WordEnd(s[1..])
  }

  /** `s.split_whitespace()`: the maximal runs of non-whitespace characters, in order. */
  function Words(s: string): (ws: seq<string>)
    ensures forall j :: 0 <= j < |ws| ==> IsWord(ws[j])
    decreases |s|
  {
    if s == [] then []
    else if IsWhitespace(s[0]) then Words(s[1..])
    else
      var n := WordEnd(s);
      [s[..n]] + Words(s[n..])
  }

  /** Leading whitespace is skipped. */
  lemma WordsSkipSpace(rest: string)
    ensures Words(" " + rest) == Words(rest)
  {
    assert (" " + rest)[1..] == rest;
  }

  /** A word followed by whitespace or the end of the text is the first word. */
  lemma {:induction false} WordsCons(w: string, rest: string)
    requires IsWord(w)
    requires rest == [] || IsWhitespace(rest[0])
    ensures Words(w + rest) == [w] + Words(rest)
  {
    var s := w + rest;
    WordEndOf(w, rest);
    assert s[..|w|] == w;
    assert s[|w|..] == rest;
  }

  lemma {:induction false} WordEndOf(w: string, rest: string)
    requires IsWord(w)
    requires rest == [] || IsWhitespace(rest[0])
    ensures WordEnd(w + rest) == |w|
    decreases |w|
  {
    var s := w + rest;
    assert s[0] == w[0];
    if |w| > 1 {
      assert s[1..] == w[1..] + rest;
      WordEndOf(w[1..], rest);
    } else {
      assert s[1..] == rest;
    }
  }

  /** Words joined by single spaces, the inverse of `Words` on word lists. */
  function Unwords(ws: seq<string>): string
  {
    if ws == [] then "" else if |ws| == 1 then ws[0] else ws[0] + " " + Unwords(ws[1..])
  }

  /** `split_whitespace` takes a space-joined list of words apart again. */
  lemma {:induction false} WordsUnwords(ws: seq<string>)
    requires forall j :: 0 <= j < |ws| ==> IsWord(ws[j])
    ensures Words(Unwords(ws)) == ws
  {
    if ws == [] {
    } else if |ws| == 1 {
      WordsCons(ws[0], "");
      assert ws[0] + "" == ws[0];
    } else {
      assert ws[0] + " " + Unwords(ws[1..]) == ws[0] + (" " + Unwords(ws[1..]));
      WordsCons(ws[0], " " + Unwords(ws[1..]));
      WordsSkipSpace(Unwords(ws[1..]));
      WordsUnwords(ws[1..]);
    }
  }

  /** Number of whitespace characters at the start of `s`. */
  function LeadingWhitespace(s: string): (n: nat)
    ensures n <= |s|
  {
    if s != [] && IsWhitespace(s[0]) then 1 + LeadingWhitespace(s[1..]) else 0
  }

  /** `s.trim_start()`: `s` without its leading whitespace. */
  function TrimStart(s: string): string
  {
    s[LeadingWhitespace(s)..]
  }

  /** `trim_start` removes whitespace only, and all of it: what is left is
      empty or starts with a non-whitespace character. */
  lemma {:induction false} TrimStartRemovesWhitespace(s: string)
    ensures forall i :: 0 <= i < LeadingWhitespace(s) ==> IsWhitespace(s[i])
    ensures TrimStart(s) == [] || !IsWhitespace(TrimStart(s)[0])
  {
    if s != [] && IsWhitespace(s[0]) {
      TrimStartRemovesWhitespace(s[1..]);
      assert TrimStart(s) == TrimStart(s[1..]);
      forall i | 1 <= i < LeadingWhitespace(s) ensures IsWhitespace(s[i]) {
        assert s[i] == s[1..][i - 1];
      }
    }
  }

  /** One leading space before a non-whitespace character is all `trim_start` removes. */
  lemma TrimStartSpace(s: string)
    requires |s| > 0 && s[0] == ' ' && (|s| == 1 || !IsWhitespace(s[1]))
    ensures TrimStart(s) == s[1..]
  {
    if |s| > 1 {
      assert s[1..][0] == s[1];
    }
    assert LeadingWhitespace(s[1..]) == 0;
    assert LeadingWhitespace(s) == 1;
  }

  /** Number of NUL characters at the end of `s`. */
  function TrailingNul(s: string): (n: nat)
    ensures n <= |s|
  {
    if s != [] && s[|s| - 1] == '\0' then 1 + TrailingNul(s[..|s| - 1]) else 0
  }

  /** `s.trim_end_matches('\0')`: `s` without its trailing NULs. */
  function TrimEndNul(s: string): string
  {
    s[..|s| - TrailingNul(s)]
  }

  /** `trim_end_matches('\0')` removes NULs only, and all of them: what is
      left is empty or ends in a character other than NUL. */
  lemma {:induction false} TrimEndNulRemovesNul(s: string)
    ensures forall i :: |s| - TrailingNul(s) <= i < |s| ==> s[i] == '\0'
    ensures TrimEndNul(s) == [] || TrimEndNul(s)[|TrimEndNul(s)| - 1] != '\0'
  {
    if s != [] && s[|s| - 1] == '\0' {
      var p := s[..|s| - 1];
      TrimEndNulRemovesNul(p);
      assert TrimEndNul(s) == TrimEndNul(p);
      forall i | |s| - TrailingNul(s) <= i < |s| - 1 ensures s[i] == '\0' {
        assert s[i] == p[i];
      }
    }
  }

  /** A text that does not end in NUL is left as it is. */
  lemma TrimEndNulNone(s: string)
    requires s == [] || s[|s| - 1] != '\0'
    ensures TrimEndNul(s) == s
  {
  }

  /** The map an association list stands for: later entries win, which
      only matters for lists with repeated keys. */
  function ToMap(h: seq<(string, string)>): map<string, string>
  {
    if h == [] then map[] else ToMap(h[..|h| - 1])[h[|h| - 1].0 := h[|h| - 1].1]
  }

  /** One more entry at the end of the list overrides its key. */
  lemma ToMapSnoc(h: seq<(string, string)>, kv: (string, string))
    ensures ToMap(h + [kv]) == ToMap(h)[kv.0 := kv.1]
  {
    assert (h + [kv])[..|h|] == h;
  }

  /** The strings of `ls` one after the other, with no separator. */
  function Concat(ls: seq<string>): string
  {
    if ls == [] then "" else Concat(ls[..|ls| - 1]) + ls[|ls| - 1]
  }

  /** Extending a slice of lines by one line extends its concatenation. */
  lemma ConcatSliceSnoc(ls: seq<string>, a: nat, b: nat)
    requires a <= b < |ls|
    ensures Concat(ls[a..b + 1]) == Concat(ls[a..b]) + ls[b]
  {
    assert ls[a..b + 1][..b - a] == ls[a..b];
  }

  /** A character occurs in a concatenation only if it occurs in one of the parts. */
  lemma {:induction false} ConcatWithout(ls: seq<string>, c: char)
    requires forall j :: 0 <= j < |ls| ==> c !in ls[j]
    ensures c !in Concat(ls)
  {
    if ls != [] {
      ConcatWithout(ls[..|ls| - 1], c);
    }
  }

  // ----- UTF-8 length (`str::len`) -----

  type byte = x: int | 0 <= x < 256

  /** Number of bytes UTF-8 spends on one code point. */
  function Utf8Width(c: char): (n: nat)
    ensures 1 <= n <= 4
    ensures n == 1 <==> (c as int) < 0x80
  {
    var x := c as int;
    if x < 0x80 then 1 else if x < 0x800 then 2 else if x < 0x10000 then 3 else 4
  }

  /** `s.len()` of a Rust `String`: its length in UTF-8 bytes. */
  function Utf8Len(s: string): nat
  {
    if s == [] then 0 else Utf8Len(s[..|s| - 1]) + Utf8Width(s[|s| - 1])
  }

  /** The UTF-8 encoding of one code point. */
  function Utf8EncodeChar(c: char): (bs: seq<byte>)
    ensures |bs| == Utf8Width(c)
    ensures |bs| > 1 ==> 0xC0 <= bs[0] && forall k :: 1 <= k < |bs| ==> 0x80 <= bs[k] < 0xC0
  {
    var x := c as int;
    if x < 0x80 then [x]
    else if x < 0x800 then [0xC0 + x / 64, 0x80 + x % 64]
    else if x < 0x10000 then [0xE0 + x / 4096, 0x80 + (x / 64) % 64, 0x80 + x % 64]
    else [0xF0 + x / 262144, 0x80 + (x / 4096) % 64, 0x80 + (x / 64) % 64, 0x80 + x % 64]
  }

  /** The bytes a Rust `String` holds for the text `s`. */
  function Utf8Encode(s: string): seq<byte>
  {
    if s == [] then [] else Utf8Encode(s[..|s| - 1]) + Utf8EncodeChar(s[|s| - 1])
  }

  /** The byte length is the length of the UTF-8 encoding. */
  lemma {:induction false} Utf8LenIsEncodedLength(s: string)
    ensures Utf8Len(s) == |Utf8Encode(s)|
  {
    if s != [] {
      Utf8LenIsEncodedLength(s[..|s| - 1]);
    }
  }

  /** The byte length never falls below the character count and equals it
      exactly when every character is ASCII. */
  lemma {:induction false} Utf8LenAscii(s: string)
    ensures Utf8Len(s) >= |s|
    ensures Utf8Len(s) == |s| <==> forall i :: 0 <= i < |s| ==> (s[i] as int) < 0x80
  {
    if s != [] {
      var p := s[..|s| - 1];
      Utf8LenAscii(p);
      if Utf8Len(s) == |s| {
        assert Utf8Len(p) == |p| && Utf8Width(s[|s| - 1]) == 1;
        forall i | 0 <= i < |s| ensures (s[i] as int) < 0x80 {
          if i < |s| - 1 { assert s[i] == p[i]; }
        }
      }
      if forall i :: 0 <= i < |s| ==> (s[i] as int) < 0x80 {
        assert forall i :: 0 <= i < |p| ==> p[i] == s[i];
      }
    }
  }

  /** The byte length of a concatenation is the sum of the byte lengths. */
  lemma {:induction false} Utf8LenAppend(a: string, b: string)
    ensures Utf8Len(a + b) == Utf8Len(a) + Utf8Len(b)
    decreases |b|
  {
    if b != [] {
      assert (a + b)[..|a + b| - 1] == a + b[..|b| - 1];
      Utf8LenAppend(a, b[..|b| - 1]);
    } else {
      assert a + b == a;
    }
  }

  // ----- decimal rendering (`Display for usize`) -----

  function DigitChar(d: nat): (c: char)
    requires d < 10
    ensures '0' <= c <= '9' && (c as int) - ('0' as int) == d
  {
    ('0' as int + d) as char
  }

  predicate IsDigits(s: string)
  {
    s != [] && forall i :: 0 <= i < |s| ==> '0' <= s[i] <= '9'
  }

  /** The decimal digits of `n`, most significant first, without leading zeros. */
  function Dec(n: nat): (s: string)
    ensures IsDigits(s)
    ensures s[0] == '0' ==> n == 0
  {
    if n < 10 then [DigitChar(n)] else Dec(n / 10) + [DigitChar(n % 10)]
  }

  /** The value of a string of decimal digits. */
  function DecValue(s: string): nat
    requires IsDigits(s)
  {
    var d := (s[|s| - 1] as int) - ('0' as int);
    if |s| == 1 then d else DecValue(s[..|s| - 1]) * 10 + d
  }

  /** Reading the decimal rendering of `n` gives `n` back. */
  lemma {:induction false} DecRoundTrip(n: nat)
    ensures DecValue(Dec(n)) == n
  {
    if n >= 10 {
      var s := Dec(n);
      assert s[..|s| - 1] == Dec(n / 10);
      DecRoundTrip(n / 10);
    }
  }
}
