/** The string operations the chat server relies on: whitespace stripping,
    splitting on whitespace runs, lower-casing, joining and decimal
    rendering of counts. */
module Text {

  /** The characters the server's runtime treats as whitespace when it
      strips and splits text. */
  predicate IsSpace(c: char) {
    var n := c as int;
    (9 <= n <= 13) || (28 <= n <= 32) || n == 0x85 || n == 0xA0 || n == 0x1680
    || (0x2000 <= n <= 0x200A) || n == 0x2028 || n == 0x2029 || n == 0x202F
    || n == 0x205F || n == 0x3000
  }

  predicate AllSpace(s: string) {
    forall i | 0 <= i < |s| :: IsSpace(s[i])
  }

  predicate NoSpace(s: string) {
    forall i | 0 <= i < |s| :: !IsSpace(s[i])
  }

  predicate StartsWith(s: string, prefix: string) {
    |prefix| <= |s| && s[..|prefix|] == prefix
  }

  /** Number of leading whitespace characters. */
  function LeadingSpace(s: string): (n: nat)
    ensures n <= |s| && (forall k | 0 <= k < n :: IsSpace(s[k]))
    ensures n < |s| ==> !IsSpace(s[n])
  {
    if s != [] && IsSpace(s[0]) then 1 + LeadingSpace(s[1..]) else 0
  }

  /** Number of trailing whitespace characters. */
  function TrailingSpace(s: string): (n: nat)
    ensures n <= |s| && (forall k | |s| - n <= k < |s| :: IsSpace(s[k]))
    ensures n < |s| ==> !IsSpace(s[|s| - n - 1])
  {
    if s != [] && IsSpace(s[|s| - 1]) then 1 + TrailingSpace(s[..|s| - 1]) else 0
  }

  /** Drops leading whitespace. */
  function TrimLeft(s: string): (r: string)
    ensures |r| <= |s| && r == s[|s| - |r|..]
    ensures AllSpace(s[..|s| - |r|])
    ensures r != [] ==> !IsSpace(r[0])
  {
    s[LeadingSpace(s)..]
  }

  /** Drops trailing whitespace. */
  function TrimRight(s: string): (r: string)
    ensures |r| <= |s| && r == s[..|r|]
    ensures AllSpace(s[|r|..])
    ensures r != [] ==> !IsSpace(r[|r| - 1])
  {
    s[..|s| - TrailingSpace(s)]
  }

  /** Whitespace removed from both ends. */
  function Strip(s: string): string {
    TrimRight(TrimLeft(s))
  }

  /** The stripped text is a slice of the input that begins and ends with a
      non-space character and is surrounded by nothing but whitespace. */
  lemma StripSlice(s: string)
    ensures var i := |s| - |TrimLeft(s)|; var j := i + |Strip(s)|;
            0 <= i <= j <= |s| && Strip(s) == s[i..j] && AllSpace(s[..i]) && AllSpace(s[j..])
  {
    SpaceAround(s, TrimLeft(s), Strip(s));
  }

  /** The slice facts behind `StripSlice`, stated for any suffix `t` of `s`
      after leading whitespace and any prefix `r` of `t` before trailing
      whitespace. */
  lemma SpaceAround(s: string, t: string, r: string)
    requires |t| <= |s| && t == s[|s| - |t|..] && AllSpace(s[..|s| - |t|])
    requires |r| <= |t| && r == t[..|r|] && AllSpace(t[|r|..])
    ensures var i := |s| - |t|; var j := i + |r|;
            0 <= i <= j <= |s| && r == s[i..j] && AllSpace(s[..i]) && AllSpace(s[j..])
  {
    SliceOfSuffix(s, t, r);
  }

  lemma StripEnds(s: string)
    ensures Strip(s) != [] ==> !IsSpace(Strip(s)[0]) && !IsSpace(Strip(s)[|Strip(s)| - 1])
  {
    var t := TrimLeft(s);
    var r := TrimRight(t);
    if r != [] {
      assert r[0] == t[0];
    }
  }

  /** A prefix of a suffix is a slice, and what follows it is the rest of
      the suffix. */
  lemma SliceOfSuffix<T>(s: seq<T>, t: seq<T>, r: seq<T>)
    requires |t| <= |s| && t == s[|s| - |t|..]
    requires |r| <= |t| && r == t[..|r|]
    ensures r == s[|s| - |t|..|s| - |t| + |r|]
    ensures s[|s| - |t| + |r|..] == t[|r|..]
  {
  }

  /** Stripping twice is stripping once. */
  lemma StripIdempotent(s: string)
    ensures Strip(Strip(s)) == Strip(s)
  {
    var r := Strip(s);
    StripEnds(s);
    if r != [] {
      assert TrimLeft(r) == r;
    }
  }

  /** A text that begins and ends with a non-space character is left as
      it is. */
  lemma StripUnchanged(s: string)
    requires s != [] && !IsSpace(s[0]) && !IsSpace(s[|s| - 1])
    ensures Strip(s) == s
  {
    assert TrimLeft(s) == s;
  }

  /** Only a text made of whitespace strips to nothing. */
  lemma StripEmptyIffAllSpace(s: string)
    ensures Strip(s) == [] <==> AllSpace(s)
  {
    if Strip(s) == [] {
      var t := TrimLeft(s);
      assert t[|TrimRight(t)|..] == t;
      assert s[..|s|] == s;
    }
  }

  /** Length of the leading run of non-space characters. */
  function WordLength(s: string): (n: nat)
    ensures n <= |s| && NoSpace(s[..n])
    ensures n < |s| ==> IsSpace(s[n])
  {
    if s == [] || IsSpace(s[0]) then 0
    else
      var n := 1 + WordLength(s[1..]);
      assert s[..n] == [s[0]] + s[1..][..n - 1];
      n
  }

  /** The maximal runs of non-space characters, in order. */
  function Split(s: string): seq<string>
    decreases |s|
  {
    var t := TrimLeft(s);
    if t == [] then []
    else
      var n := WordLength(t);
      [t[..n]] + Split(t[n..])
  }

  /** Every word is non-empty and holds no whitespace. */
  lemma {:induction false} SplitWords(s: string)
    ensures forall k | 0 <= k < |Split(s)| :: Split(s)[k] != [] && NoSpace(Split(s)[k])
    decreases |s|
  {
    var t := TrimLeft(s);
    if t != [] {
      var n := WordLength(t);
      assert n >= 1 by { assert !IsSpace(t[0]); }
      var word := t[..n];
      var rest := Split(t[n..]);
      SplitWords(t[n..]);
      assert Split(s) == [word] + rest;
      assert word != [] && NoSpace(word);
    }
  }

  /** A text splits into no words exactly when it is all whitespace. */
  lemma SplitEmptyIffAllSpace(s: string)
    ensures Split(s) == [] <==> AllSpace(s)
  {
    var t := TrimLeft(s);
    if t == [] {
      assert s[..|s|] == s;
    } else {
      assert s[|s| - |t|] == t[0];
    }
  }

  /** The first word of a text that starts with a non-space character
      begins with that character. */
  lemma SplitHead(s: string)
    requires s != [] && !IsSpace(s[0])
    ensures Split(s) != [] && Split(s)[0] != [] && Split(s)[0][0] == s[0]
  {
    assert TrimLeft(s) == s;
  }

  /** The first word of a text that starts with a non-space character is
      its leading run of non-space characters. */
  lemma SplitFirst(s: string)
    requires s != [] && !IsSpace(s[0])
    ensures Split(s) != [] && Split(s)[0] == s[..WordLength(s)]
  {
    assert TrimLeft(s) == s;
  }

  /** ASCII and basic Cyrillic capitals mapped to small letters. */
  function LowerChar(c: char): (d: char)
    ensures IsSpace(d) <==> IsSpace(c)
  {
    var n := c as int;
    if 'A' as int <= n <= 'Z' as int then (n + 32) as char
    else if 0x0410 <= n <= 0x042F then (n + 32) as char
    else if 0x0400 <= n <= 0x040F then (n + 80) as char
    else c
  }

  function Lower(s: string): (r: string)
    ensures |r| == |s|
    ensures forall i {:trigger r[i]} | 0 <= i < |s| :: r[i] == LowerChar(s[i])
  {
    if s == [] then [] else [LowerChar(s[0])] + Lower(s[1..])
  }

  /** Lower-casing a lower-cased text changes nothing. */
  lemma LowerIdempotent(s: string)
    ensures Lower(Lower(s)) == Lower(s)
  {
    var r := Lower(s);
    forall i | 0 <= i < |s| ensures Lower(r)[i] == r[i] {
      assert r[i] == LowerChar(s[i]);
    }
  }

  /** The parts joined with `sep` between neighbours. */
  function Join(parts: seq<string>, sep: string): string {
    if parts == [] then ""
    else if |parts| == 1 then parts[0]
    else parts[0] + sep + Join(parts[1..], sep)
  }

  /** Joining whitespace-free words with a single space and splitting the
      result gives the words back. */
  lemma {:induction false} SplitJoin(words: seq<string>)
    requires forall k | 0 <= k < |words| :: words[k] != [] && NoSpace(words[k])
    ensures Split(Join(words, " ")) == words
  {
    if |words| == 1 {
      SplitWord(words[0]);
      assert words == [words[0]];
    } else if |words| > 1 {
      var tailWords := words[1..];
      forall k | 0 <= k < |tailWords| ensures tailWords[k] != [] && NoSpace(tailWords[k]) {
        assert tailWords[k] == words[k + 1];
      }
      SplitJoin(tailWords);
      SplitJoinStep(words[0], tailWords);
      assert words == [words[0]] + tailWords;
    }
  }

  /** One more word in front of words that already split back. */
  lemma SplitJoinStep(w: string, tailWords: seq<string>)
    requires w != [] && NoSpace(w) && tailWords != []
    requires Split(Join(tailWords, " ")) == tailWords
    ensures Split(Join([w] + tailWords, " ")) == [w] + tailWords
  {
    var words := [w] + tailWords;
    assert words[0] == w && words[1..] == tailWords;
    JoinCons(words, " ");
    SplitWordSpaceThen(w, Join(tailWords, " "), tailWords);
  }

  /** A word on its own splits into itself. */
  lemma SplitWord(w: string)
    requires w != [] && NoSpace(w)
    ensures Split(w) == [w]
  {
    SplitWordThen(w, "");
    assert w + "" == w;
  }

  /** A word, a space and a text that splits into `tailWords` split into
      the word followed by `tailWords`. */
  lemma SplitWordSpaceThen(w: string, rest: string, tailWords: seq<string>)
    requires w != [] && NoSpace(w)
    requires Split(rest) == tailWords
    ensures Split(w + (" " + rest)) == [w] + tailWords
  {
    SplitWordThen(w, " " + rest);
    SplitSkipsSpace(rest);
  }

  lemma JoinCons(parts: seq<string>, sep: string)
    requires |parts| > 1
    ensures Join(parts, sep) == parts[0] + (sep + Join(parts[1..], sep))
  {
    assert parts[0] + sep + Join(parts[1..], sep) == parts[0] + (sep + Join(parts[1..], sep));
  }

  /** A word followed by whitespace or nothing splits off as one word. */
  lemma SplitWordThen(w: string, tail: string)
    requires w != [] && NoSpace(w)
    requires tail == [] || IsSpace(tail[0])
    ensures Split(w + tail) == [w] + Split(tail)
  {
    var t := w + tail;
    assert t[0] == w[0];
    assert LeadingSpace(t) == 0;
    WordLengthWhole(w, tail);
    assert t[..|w|] == w && t[|w|..] == tail;
  }

  /** The word length of a word followed by whitespace or nothing. */
  lemma {:induction false} WordLengthWhole(w: string, tail: string)
    requires NoSpace(w)
    requires tail == [] || IsSpace(tail[0])
    ensures WordLength(w + tail) == |w|
  {
    if w != [] {
      assert (w + tail)[1..] == w[1..] + tail;
      WordLengthWhole(w[1..], tail);
    } else {
      assert w + tail == tail;
    }
  }

  /** A leading space does not change how a text splits. */
  lemma SplitSkipsSpace(s: string)
    ensures Split(" " + s) == Split(s)
  {
    assert (" " + s)[1..] == s;
    assert TrimLeft(" " + s) == TrimLeft(s);
  }

  /** The decimal digits of a count. */
  function NatToString(n: nat): (r: string)
    ensures r != [] && forall i | 0 <= i < |r| :: '0' <= r[i] <= '9'
  {
    var d := ['0' + (n % 10) as char];
    if n < 10 then d else NatToString(n / 10) + d
  }

  /** The inverse of `NatToString`. */
  function DigitsValue(s: string): int {
    if s == [] then 0 else DigitsValue(s[..|s| - 1]) * 10 + (s[|s| - 1] as int - '0' as int)
  }

  /** Rendering a count in decimal loses nothing. */
  lemma {:induction false} NatToStringRoundTrip(n: nat)
    ensures DigitsValue(NatToString(n)) == n
  {
    var d := ['0' + (n % 10) as char];
    if n >= 10 {
      NatToStringRoundTrip(n / 10);
      var r := NatToString(n / 10) + d;
      assert r[..|r| - 1] == NatToString(n / 10);
    }
  }
}
