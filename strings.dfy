/** The two string operations the chunker relies on: `re.split(r"\s+", s)`
    and `sep.join(parts)`. */
module Strings {

  /** Python's `\s`, restricted to ASCII: tab, line feed, vertical tab,
      form feed, carriage return (0x09-0x0D), the four information
      separators (0x1C-0x1F) and space (0x20). */
  predicate IsSpace(c: char) {
    var n := c as int;
    (9 <= n <= 13) || (28 <= n <= 32)
  }

  predicate NoSpace(w: string) {
    forall i :: 0 <= i < |w| ==> !IsSpace(w[i])
  }

  /** What `re.split(r"\s+", s)` can return: at least one token, no token
      holds whitespace, and only the first and the last token may be empty. */
  predicate IsTokenList(words: seq<string>) {
    && |words| >= 1
    && (forall i :: 0 <= i < |words| ==> NoSpace(words[i]))
    && (forall i :: 0 < i < |words| - 1 ==> words[i] != [])
  }

  /** The longest prefix of `s` that holds no whitespace. */
  function Word(s: string): (w: string)
    ensures |w| <= |s|
  {
    if s == [] || IsSpace(s[0]) then [] else [s[0]] + Word(s[1..])
  }

  lemma {:induction false} WordIsLongestPrefix(s: string)
    ensures Word(s) == s[..|Word(s)|] && NoSpace(Word(s))
    ensures |Word(s)| < |s| ==> IsSpace(s[|Word(s)|])
  {
    if s != [] && !IsSpace(s[0]) {
      WordIsLongestPrefix(s[1..]);
    }
  }

  /** `s` without its leading run of whitespace. */
  function TrimStart(s: string): (t: string)
    ensures |t| <= |s|
  {
    if s != [] && IsSpace(s[0]) then TrimStart(s[1..]) else s
  }

  lemma {:induction false} TrimStartDropsSpaces(s: string)
    ensures TrimStart(s) == s[|s| - |TrimStart(s)|..]
    ensures TrimStart(s) == [] || !IsSpace(TrimStart(s)[0])
    ensures forall i :: 0 <= i < |s| - |TrimStart(s)| ==> IsSpace(s[i])
    ensures s != [] && IsSpace(s[0]) ==> |TrimStart(s)| < |s|
  {
    if s != [] && IsSpace(s[0]) {
      TrimStartDropsSpaces(s[1..]);
      assert TrimStart(s) == TrimStart(s[1..]);
      forall i | 0 <= i < |s| - |TrimStart(s)| ensures IsSpace(s[i]) {
        if i > 0 {
          assert s[i] == s[1..][i - 1];
        }
      }
    }
  }

  /** `re.split(r"\s+", s)`: the text between maximal runs of whitespace.
      Leading or trailing whitespace gives an empty first or last token,
      and the empty string gives `[""]`. */
  function Split(s: string): (words: seq<string>)
    ensures |words| >= 1
    decreases |s|
  {
    var w := Word(s);
    var rest := s[|w|..];
    if rest == [] then [w]
    else
      var t := TrimStart(rest);
      assert |t| < |rest| by {
        WordIsLongestPrefix(s);
        TrimStartDropsSpaces(rest);
      }
      [w] + Split(t)
  }

  /** Everything `Split` returns is a token list; its first token is empty
      exactly when the text is empty or starts with whitespace, and its last
      token exactly when the text is empty or ends with whitespace. */
  lemma {:induction false} SplitTokens(s: string)
    ensures IsTokenList(Split(s))
    ensures Split(s)[0] == [] <==> (s == [] || IsSpace(s[0]))
    ensures Split(s)[|Split(s)| - 1] == [] <==> (s == [] || IsSpace(s[|s| - 1]))
    decreases |s|
  {
    var w := Word(s);
    var rest := s[|w|..];
    WordIsLongestPrefix(s);
    if rest != [] {
      var t := TrimStart(rest);
      TrimStartDropsSpaces(rest);
      SplitTokens(t);
      var tail := Split(t);
      assert Split(s) == [w] + tail;
      ConsToken(w, tail, t != []);
      assert (t == [] || IsSpace(t[|t| - 1])) <==> IsSpace(s[|s| - 1]) by {
        assert rest[|rest| - 1] == s[|s| - 1];
        if t != [] {
          assert t[|t| - 1] == rest[|rest| - 1];
        }
      }
    } else {
      assert w == s;
    }
  }

  /** Putting a whitespace-free word in front of a token list whose first
      token is non-empty (or that has one token) gives a token list. */
  lemma ConsToken(w: string, tail: seq<string>, headNonEmpty: bool)
    requires NoSpace(w) && IsTokenList(tail)
    requires headNonEmpty ==> tail[0] != []
    requires !headNonEmpty ==> |tail| == 1
    ensures IsTokenList([w] + tail)
  {
    var r := [w] + tail;
    forall i | 0 <= i < |r| ensures NoSpace(r[i]) {
      if i > 0 { assert r[i] == tail[i - 1]; }
    }
    forall i | 0 < i < |r| - 1 ensures r[i] != [] {
      assert r[i] == tail[i - 1];
    }
  }

  /** `sep.join(parts)`: the parts in order with `sep` between each two. */
  function JoinWith(sep: string, parts: seq<string>): (r: string)
  {
    if |parts| == 0 then ""
    else if |parts| == 1 then parts[0]
    else parts[0] + sep + JoinWith(sep, parts[1..])
  }

  /** A join starts with its first part and ends with its last. */
  lemma {:induction false} JoinWithEnds(sep: string, parts: seq<string>)
    requires |parts| >= 1
    ensures parts[0] <= JoinWith(sep, parts)
    ensures var r, last := JoinWith(sep, parts), parts[|parts| - 1];
      |last| <= |r| && r[|r| - |last|..] == last
  {
    if |parts| >= 2 {
      JoinWithEnds(sep, parts[1..]);
      var rest := JoinWith(sep, parts[1..]);
      assert (parts[0] + sep + rest)[|parts[0] + sep|..] == rest;
    }
  }

  lemma {:induction false} WordOfNoSpace(w: string, x: string)
    requires NoSpace(w)
    requires x == [] || IsSpace(x[0])
    ensures Word(w + x) == w
  {
    if w != [] {
      assert (w + x)[1..] == w[1..] + x;
      WordOfNoSpace(w[1..], x);
    } else {
      assert w + x == x;
    }
  }

  /** A run of whitespace of length at least one: what `\s+` matches. */
  predicate IsGap(g: string) {
    g != [] && forall i :: 0 <= i < |g| ==> IsSpace(g[i])
  }

  /** The tokens with the gaps between them put back:
      `words[0] + gaps[0] + words[1] + ... + words[n-1]`. */
  function Weave(words: seq<string>, gaps: seq<string>): string
    requires |words| >= 1 && |gaps| == |words| - 1
  {
    if |words| == 1 then words[0]
    else words[0] + gaps[0] + Weave(words[1..], gaps[1..])
  }

  lemma {:induction false} WeaveStartsWithFirst(words: seq<string>, gaps: seq<string>)
    requires |words| >= 1 && |gaps| == |words| - 1
    ensures words[0] <= Weave(words, gaps)
  {
  }

  /** Leading whitespace followed by text that does not start with
      whitespace trims to that text. */
  lemma {:induction false} TrimGap(g: string, rest: string)
    requires forall i :: 0 <= i < |g| ==> IsSpace(g[i])
    requires rest == [] || !IsSpace(rest[0])
    ensures TrimStart(g + rest) == rest
  {
    if g == [] {
      assert g + rest == rest;
    } else {
      assert (g + rest)[1..] == g[1..] + rest;
      TrimGap(g[1..], rest);
    }
  }

  /** One step of `Split`: a whitespace-free word, a gap, then text that
      does not start with whitespace. */
  lemma SplitGapCons(w: string, g: string, rest: string)
    requires NoSpace(w) && IsGap(g)
    requires rest == [] || !IsSpace(rest[0])
    ensures Split(w + g + rest) == [w] + Split(rest)
  {
    var s := w + g + rest;
    assert s == w + (g + rest);
    WordOfNoSpace(w, g + rest);
    assert s[|w|..] == g + rest;
    TrimGap(g, rest);
  }

  /** The gaps `Split` cuts at: together with the tokens they give the text
      back, and each is a non-empty run of whitespace. */
  lemma {:induction false} SplitGaps(s: string) returns (gaps: seq<string>)
    ensures |gaps| == |Split(s)| - 1
    ensures forall i :: 0 <= i < |gaps| ==> IsGap(gaps[i])
    ensures Weave(Split(s), gaps) == s
    decreases |s|
  {
    var w := Word(s);
    var rest := s[|w|..];
    assert s == w + rest by {
      WordIsLongestPrefix(s);
      SliceSplit(s, |w|);
    }
    if rest == [] {
      gaps := [];
    } else {
      var t := TrimStart(rest);
      var g := rest[..|rest| - |t|];
      assert IsGap(g) && rest == g + t by {
        WordIsLongestPrefix(s);
        TrimStartDropsSpaces(rest);
        assert IsSpace(rest[0]);
        forall i | 0 <= i < |g| ensures IsSpace(g[i]) {
          assert g[i] == rest[i];
        }
        SliceSplit(rest, |rest| - |t|);
      }
      var tailGaps := SplitGaps(t);
      gaps := [g] + tailGaps;
      var tail := Split(t);
      assert Split(s) == [w] + tail;
      forall i | 0 <= i < |gaps| ensures IsGap(gaps[i]) {
        if i > 0 {
          assert gaps[i] == tailGaps[i - 1];
        }
      }
      assert Weave(Split(s), gaps) == s by {
        WeaveCons(w, tail, g, tailGaps);
        ConcatAssoc(w, g, t);
      }
    }
  }

  lemma SliceSplit(s: string, k: nat)
    requires k <= |s|
    ensures s == s[..k] + s[k..]
  {
  }

  lemma ConcatAssoc(a: string, b: string, c: string)
    ensures a + (b + c) == a + b + c
  {
  }

  /** Weaving a word in front of a token list puts one gap between them. */
  lemma WeaveCons(w: string, tail: seq<string>, g: string, gaps: seq<string>)
    requires |tail| >= 1 && |gaps| == |tail| - 1
    ensures Weave([w] + tail, [g] + gaps) == w + g + Weave(tail, gaps)
  {
    assert ([w] + tail)[1..] == tail;
    assert ([g] + gaps)[1..] == gaps;
  }

  /** `re.split(r"\s+", s)` cuts `s` at its whitespace runs and nowhere
      else: `s` is its tokens woven back together with non-empty
      all-whitespace gaps. */
  lemma SplitRebuildsText(s: string)
    ensures exists gaps :: && |gaps| == |Split(s)| - 1
                           && (forall i :: 0 <= i < |gaps| ==> IsGap(gaps[i]))
                           && Weave(Split(s), gaps) == s
  {
    var gaps := SplitGaps(s);
  }

  /** Conversely, any token list woven with whitespace gaps splits back
      into that list: with `SplitRebuildsText` and `SplitTokens`, this
      determines `Split` on every text. */
  lemma {:induction false} SplitWeave(words: seq<string>, gaps: seq<string>)
    requires IsTokenList(words) && |gaps| == |words| - 1
    requires forall i :: 0 <= i < |gaps| ==> IsGap(gaps[i])
    ensures Split(Weave(words, gaps)) == words
  {
    if |words| == 1 {
      WordOfNoSpace(words[0], []);
      assert words[0] + [] == words[0];
    } else {
      var tail := Weave(words[1..], gaps[1..]);
      assert tail == [] || !IsSpace(tail[0]) by {
        WeaveStartsWithFirst(words[1..], gaps[1..]);
        if |words| > 2 {
          assert words[1] != [];
        }
      }
      SplitGapCons(words[0], gaps[0], tail);
      TailIsTokenList(words);
      SplitWeave(words[1..], gaps[1..]);
      assert words == [words[0]] + words[1..];
    }
  }

  /** Dropping the first token of a list of two or more leaves a token list. */
  lemma TailIsTokenList(words: seq<string>)
    requires IsTokenList(words) && |words| >= 2
    ensures IsTokenList(words[1..])
  {
    forall i | 0 < i < |words[1..]| - 1 ensures words[1..][i] != [] {
      assert words[1..][i] == words[i + 1];
    }
  }

  /** Splitting a space-join of tokens gives the tokens back: `Split` is a
      left inverse of `JoinWith(" ", _)` on everything `Split` can return. */
  lemma {:induction false} SplitJoin(words: seq<string>)
    requires IsTokenList(words)
    ensures Split(JoinWith(" ", words)) == words
  {
    if |words| == 1 {
      WordOfNoSpace(words[0], []);
      assert words[0] + [] == words[0];
    } else {
      var tail := JoinWith(" ", words[1..]);
      assert tail == [] || !IsSpace(tail[0]) by {
        JoinWithEnds(" ", words[1..]);
        if |words| > 2 {
          assert words[1] != [];
        }
      }
      assert IsGap(" ") by {
        assert " "[0] == ' ';
      }
      SplitGapCons(words[0], " ", tail);
      TailIsTokenList(words);
      SplitJoin(words[1..]);
      assert words == [words[0]] + words[1..];
    }
  }

  /** A non-empty contiguous run of tokens is itself a token list. */
  lemma SliceIsTokenList(words: seq<string>, a: nat, b: nat)
    requires IsTokenList(words)
    requires a < b <= |words|
    ensures IsTokenList(words[a..b])
  {
    forall i | 0 < i < b - a - 1 ensures words[a..b][i] != [] {
      assert words[a..b][i] == words[a + i];
    }
  }
}
