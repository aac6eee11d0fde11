/**
 * The pieces of Go's `strings` and `unicode` packages that the parser and
 * the widgets rely on, written out so that their edge cases (an empty
 * input, a missing separator, runs of white space) are part of the model.
 * A Go string is modelled as a sequence of characters.
 */
module GoStrings {

  /** unicode.IsSpace: Latin-1 white space plus the other Unicode White_Space code points. */
  predicate IsSpace(c: char) {
    c == ' ' || c == '\t' || c == '\n' || c == '\r' || c == '\U{000B}' || c == '\U{000C}'
    || c == '\U{0085}' || c == '\U{00A0}' || c == '\U{1680}' || ('\U{2000}' <= c <= '\U{200A}')
    || c == '\U{2028}' || c == '\U{2029}' || c == '\U{202F}' || c == '\U{205F}' || c == '\U{3000}'
  }

  predicate AllSpace(s: string) {
    forall i | 0 <= i < |s| :: IsSpace(s[i])
  }

  /** A field as strings.Fields yields it: non-empty, with no white space. */
  predicate IsWord(s: string) {
    |s| > 0 && forall i | 0 <= i < |s| :: !IsSpace(s[i])
  }

  /** strings.Index for a one-character separator: the first position of `c`, or -1. */
  function IndexOf(s: string, c: char): (r: int)
    ensures -1 <= r < |s|
    ensures r == -1 <==> c !in s
    ensures r >= 0 ==> s[r] == c && c !in s[..r]
  {
    if |s| == 0 then -1
    else if s[0] == c then 0
    else
      var i := IndexOf(s[1..], c);
      assert s[1..] == s[1..];
      if i == -1 then -1
      else
        assert s[..i + 1] == [s[0]] + s[1..][..i];
        i + 1
  }

  predicate HasPrefix(s: string, p: string) {
    |p| <= |s| && s[..|p|] == p
  }

  predicate HasSuffix(s: string, x: string) {
    |x| <= |s| && s[|s| - |x|..] == x
  }

  /** strings.TrimSuffix: drops `x` from the end of `s` when it is there. */
  function TrimSuffix(s: string, x: string): (r: string)
    ensures HasSuffix(s, x) ==> r + x == s
    ensures !HasSuffix(s, x) ==> r == s
  {
    if HasSuffix(s, x) then s[..|s| - |x|] else s
  }

  /** Drops the white space at the start of `s`. */
  function TrimLeftSpace(s: string): string {
    if |s| > 0 && IsSpace(s[0]) then TrimLeftSpace(s[1..]) else s
  }

  /** What TrimLeftSpace leaves is a suffix, what it drops is white space, and it does not start with white space. */
  lemma {:induction false} TrimLeftShape(s: string)
    ensures var r := TrimLeftSpace(s);
            && |r| <= |s| && r == s[|s| - |r|..]
            && AllSpace(s[..|s| - |r|])
            && (r == [] || !IsSpace(r[0]))
  {
    if |s| > 0 && IsSpace(s[0]) {
      TrimLeftShape(s[1..]);
      var r := TrimLeftSpace(s[1..]);
      assert s[..|s| - |r|] == [s[0]] + s[1..][..|s| - 1 - |r|];
    }
  }

  /** Drops the white space at the end of `s`. */
  function TrimRightSpace(s: string): string {
    if |s| > 0 && IsSpace(s[|s| - 1]) then TrimRightSpace(s[..|s| - 1]) else s
  }

  /** What TrimRightSpace leaves is a prefix, what it drops is white space, and it does not end with white space. */
  lemma {:induction false} TrimRightShape(s: string)
    ensures var r := TrimRightSpace(s);
            && |r| <= |s| && r == s[..|r|]
            && AllSpace(s[|r|..])
            && (r == [] || !IsSpace(r[|r| - 1]))
  {
    if |s| > 0 && IsSpace(s[|s| - 1]) {
      TrimRightShape(s[..|s| - 1]);
      var r := TrimRightSpace(s[..|s| - 1]);
      assert s[|r|..] == s[..|s| - 1][|r|..] + [s[|s| - 1]];
    }
  }

  /** strings.TrimSpace. */
  function TrimSpace(s: string): string {
    TrimRightSpace(TrimLeftSpace(s))
  }

  /** TrimSpace leaves nothing exactly when `s` is all white space, and what it leaves neither starts nor ends with it. */
  lemma TrimSpaceShape(s: string)
    ensures var r := TrimSpace(s);
            && |r| <= |s|
            && (r == [] <==> AllSpace(s))
            && (r != [] ==> !IsSpace(r[0]) && !IsSpace(r[|r| - 1]))
  {
    var t := TrimLeftSpace(s);
    TrimLeftShape(s);
    TrimRightShape(t);
    assert s == s[..|s| - |t|] + t;
    var r := TrimRightSpace(t);
    if r != [] {
      assert r[0] == t[0];
    }
  }

  /** Trimming leaves alone a string that neither starts nor ends with white space, once leading white space is gone. */
  lemma {:induction false} TrimSpaceAfterSpaces(lead: string, w: string)
    requires AllSpace(lead)
    requires w != [] && !IsSpace(w[0]) && !IsSpace(w[|w| - 1])
    ensures TrimSpace(lead + w) == w
  {
    TrimLeftAfterSpaces(lead, w);
  }

  lemma {:induction false} TrimLeftAfterSpaces(lead: string, w: string)
    requires AllSpace(lead)
    requires w != [] && !IsSpace(w[0])
    ensures TrimLeftSpace(lead + w) == w
  {
    if lead != [] {
      assert (lead + w)[1..] == lead[1..] + w;
      TrimLeftAfterSpaces(lead[1..], w);
    }
  }

  /** The length of the longest prefix of `s` without white space. */
  function WordLength(s: string): (n: nat)
    ensures n <= |s|
    ensures forall i | 0 <= i < n :: !IsSpace(s[i])
    ensures n < |s| ==> IsSpace(s[n])
  {
    if |s| > 0 && !IsSpace(s[0]) then 1 + WordLength(s[1..]) else 0
  }

  /** strings.Fields: the maximal runs of non-white-space characters, in order. */
  function Fields(s: string): (r: seq<string>)
    ensures forall i | 0 <= i < |r| :: IsWord(r[i])
    ensures r == [] <==> AllSpace(s)
    decreases |s|
  {
    if s == [] then []
    else if IsSpace(s[0]) then
      var r := Fields(s[1..]);
      assert AllSpace(s[1..]) ==> AllSpace(s) by {
        assert forall i | 1 <= i < |s| :: s[i] == s[1..][i - 1];
      }
      r
    else
      var n := WordLength(s);
      var w := s[..n];
      assert forall j | 0 <= j < n :: w[j] == s[j];
      var rest := Fields(s[n..]);
      var r := [w] + rest;
      assert forall i | 1 <= i < |r| :: r[i] == rest[i - 1];
      r
  }

  /** Leading white space does not change the fields. */
  lemma {:induction false} FieldsAfterSpaces(lead: string, s: string)
    requires AllSpace(lead)
    ensures Fields(lead + s) == Fields(s)
  {
    if lead != [] {
      var ls := lead + s;
      assert ls[0] == lead[0];
      assert ls[1..] == lead[1..] + s;
      FieldsAfterSpaces(lead[1..], s);
    } else {
      assert lead + s == s;
    }
  }

  /** A word followed by white space (or by nothing) is the first field. */
  lemma FieldsOfWordThen(w: string, rest: string)
    requires IsWord(w)
    requires rest == [] || IsSpace(rest[0])
    ensures Fields(w + rest) == [w] + Fields(rest)
  {
    var s := w + rest;
    assert s[0] == w[0];
    var n := WordLength(s);
    assert forall i | 0 <= i < |w| :: s[i] == w[i];
    assert rest != [] ==> s[|w|] == rest[0];
    assert n == |w|;
    assert s[..n] == w && s[n..] == rest;
  }
  /** A single word is its own only field. */
  lemma WordIsOneField(w: string)
    requires IsWord(w)
    ensures Fields(w) == [w]
  {
    FieldsOfWordThen(w, "");
    assert w + "" == w;
  }


  /** A word cut short by white space (or by the end) is as long as it would be without what follows. */
  lemma {:induction false} WordLengthThen(s: string, rest: string)
    requires rest == [] || IsSpace(rest[0])
    ensures WordLength(s + rest) == WordLength(s)
  {
    if |s| > 0 {
      assert (s + rest)[0] == s[0];
      if !IsSpace(s[0]) {
        assert (s + rest)[1..] == s[1..] + rest;
        WordLengthThen(s[1..], rest);
      }
    }
  }

  /** Appending a space and a word adds that word as the last field. */
  lemma {:induction false} FieldsThenWord(s: string, w: string)
    requires IsWord(w)
    ensures Fields(s + " " + w) == Fields(s) + [w]
    decreases |s|
  {
    var t := s + " " + w;
    if s == [] {
      assert t == " " + w;
      FieldsAfterSpaces(" ", w);
      FieldsOfWordThen(w, "");
      assert w + "" == w;
    } else if IsSpace(s[0]) {
      assert t[0] == s[0];
      assert t[1..] == s[1..] + " " + w;
      FieldsThenWord(s[1..], w);
    } else {
      assert t[0] == s[0];
      var n := WordLength(s);
      assert t == s + (" " + w);
      WordLengthThen(s, " " + w);
      assert t[..n] == s[..n];
      assert t[n..] == s[n..] + " " + w;
      FieldsThenWord(s[n..], w);
    }
  }

  /** strings.Join. */
  function Join(parts: seq<string>, sep: string): string {
    if |parts| == 0 then ""
    else if |parts| == 1 then parts[0]
    else parts[0] + sep + Join(parts[1..], sep)
  }

  /** Fields undoes joining words with single spaces. */
  lemma {:induction false} FieldsOfJoin(words: seq<string>)
    requires forall i | 0 <= i < |words| :: IsWord(words[i])
    ensures Fields(Join(words, " ")) == words
  {
    if |words| == 0 {
    } else if |words| == 1 {
      FieldsOfWordThen(words[0], "");
      assert words[0] + "" == words[0];
    } else {
      var tail := Join(words[1..], " ");
      assert Join(words, " ") == words[0] + (" " + tail);
      FieldsOfWordThen(words[0], " " + tail);
      FieldsAfterSpaces(" ", tail);
      FieldsOfJoin(words[1..]);
    }
  }

  /** strings.Split for a one-character separator. */
  function Split(s: string, c: char): (r: seq<string>)
    ensures |r| >= 1
    ensures forall i | 0 <= i < |r| :: c !in r[i]
    ensures Join(r, [c]) == s
    decreases |s|
  {
    var i := IndexOf(s, c);
    if i == -1 then [s]
    else
      var rest := Split(s[i + 1..], c);
      var r := [s[..i]] + rest;
      assert r[0] == s[..i] && r[1..] == rest;
      assert forall k | 1 <= k < |r| :: r[k] == rest[k - 1];
      assert Join(r, [c]) == s[..i] + [c] + Join(rest, [c]);
      assert s == s[..i] + [c] + s[i + 1..];
      r
  }

  /** Splitting on a separator that no part contains gives the parts back. */
  lemma {:induction false} SplitJoin(parts: seq<string>, c: char)
    requires |parts| >= 1
    requires forall i | 0 <= i < |parts| :: c !in parts[i]
    ensures Split(Join(parts, [c]), c) == parts
  {
    if |parts| > 1 {
      var p := parts[0];
      var tail := Join(parts[1..], [c]);
      var s := Join(parts, [c]);
      assert s == p + [c] + tail;
      var i := IndexOf(s, c);
      assert forall k | 0 <= k < |p| :: s[k] == p[k];
      assert s[|p|] == c;
      assert forall k | 0 <= k < i :: s[..i][k] == s[k];
      assert i == |p|;
      assert s[..i] == p && s[i + 1..] == tail;
      SplitJoin(parts[1..], c);
    } else {
      assert Join(parts, [c]) == parts[0];
    }
  }

  /** Go's `<` on strings: byte-wise order, which for UTF-8 is code-point order. */
  predicate LexLess(a: string, b: string) {
    if |a| == 0 then |b| > 0
    else if |b| == 0 then false
    else if a[0] != b[0] then a[0] < b[0]
    else LexLess(a[1..], b[1..])
  }

  lemma {:induction false} LexLessIrreflexive(a: string)
    ensures !LexLess(a, a)
  {
    if |a| > 0 {
      LexLessIrreflexive(a[1..]);
    }
  }

  lemma {:induction false} LexLessTransitive(a: string, b: string, c: string)
    requires LexLess(a, b) && LexLess(b, c)
    ensures LexLess(a, c)
  {
    if |a| > 0 && |b| > 0 && |c| > 0 && a[0] == b[0] && b[0] == c[0] {
      LexLessTransitive(a[1..], b[1..], c[1..]);
    }
  }

  /** Two different strings are always ordered one way or the other. */
  lemma {:induction false} LexLessTotal(a: string, b: string)
    requires a != b
    ensures LexLess(a, b) || LexLess(b, a)
  {
    if |a| > 0 && |b| > 0 && a[0] == b[0] {
      assert a == [a[0]] + a[1..] && b == [b[0]] + b[1..];
      LexLessTotal(a[1..], b[1..]);
    }
  }

  /** The decimal digits of `n`, as fmt's `%d` writes a non-negative int. */
  function NatToString(n: nat): (r: string)
    ensures |r| >= 1
    ensures forall i | 0 <= i < |r| :: '0' <= r[i] <= '9'
    decreases n
  {
    var d := [('0' as int + n % 10) as char];
    if n < 10 then d else NatToString(n / 10) + d
  }
}
