/** ExpectToken of lib/stonith/expect.c: look for any of a list of tokens in a stream of characters. */
module Expect {
  import opened Bytes

  // What is looked for ------------------------------------------------------------------------------------

  /** The first k characters of `tok` are the last k of `s`. */
  ghost predicate Matches(tok: bytes, s: bytes, k: nat) {
    k <= |tok| && k <= |s| && tok[..k] == s[|s| - k..]
  }

  /** k is the length of the longest beginning of `tok` that is an end of `s`. */
  ghost predicate Longest(tok: bytes, s: bytes, k: nat) {
    Matches(tok, s, k) && forall j: nat | Matches(tok, s, j) :: j <= k
  }

  /** `s` ends with `tok`. */
  ghost predicate Ends(tok: bytes, s: bytes) {
    Matches(tok, s, |tok|)
  }

  lemma MatchesSnoc(tok: bytes, s: bytes, ch: byte, j: nat)
    requires 0 < j <= |tok|
    ensures Matches(tok, s + [ch], j) <==> Matches(tok, s, j - 1) && tok[j - 1] == ch
  {
    if j <= |s| + 1 {
      var t := s + [ch];
      assert t[|t| - j..] == s[|s| - (j - 1)..] + [ch];
      assert tok[..j] == tok[..j - 1] + [tok[j - 1]];
      if tok[..j] == t[|t| - j..] {
        assert tok[..j - 1] == tok[..j][..j - 1] == t[|t| - j..][..j - 1] == s[|s| - (j - 1)..];
        assert tok[j - 1] == tok[..j][j - 1] == t[|t| - j..][j - 1] == ch;
      }
    }
  }

  /** Shorter matches are read off the token itself: compare its beginning with the tail of what has matched. */
  lemma MatchesInside(tok: bytes, s: bytes, m: nat, c: nat)
    requires Matches(tok, s, m) && c <= m
    ensures Matches(tok, s, c) <==> tok[..c] == tok[m - c..m]
  {
    assert tok[m - c..m] == tok[..m][m - c..] == s[|s| - m..][m - c..] == s[|s| - c..];
  }

  /** The test of the search loop: can the token be matched up to c and then one further with ch? */
  predicate Fits(tok: bytes, m: nat, ch: byte, c: nat)
    requires c <= m < |tok|
  {
    tok[..c] == tok[m - c..m] && tok[c] == ch
  }

  lemma NextLonger(tok: bytes, s: bytes, m: nat, ch: byte)
    requires Longest(tok, s, m) && m < |tok| && tok[m] == ch
    ensures Longest(tok, s + [ch], m + 1)
  {
    MatchesSnoc(tok, s, ch, m + 1);
    forall j: nat | Matches(tok, s + [ch], j)
      ensures j <= m + 1
    {
      if j > 0 {
        MatchesSnoc(tok, s, ch, j);
      }
    }
  }

  lemma NextShorter(tok: bytes, s: bytes, m: nat, ch: byte, c: nat)
    requires Longest(tok, s, m) && m < |tok| && c <= m && Fits(tok, m, ch, c)
    requires forall d | c < d <= m :: !Fits(tok, m, ch, d)
    ensures Longest(tok, s + [ch], c + 1)
  {
    MatchesInside(tok, s, m, c);
    MatchesSnoc(tok, s, ch, c + 1);
    forall j: nat | Matches(tok, s + [ch], j)
      ensures j <= c + 1
    {
      if j > 0 {
        MatchesSnoc(tok, s, ch, j);
        MatchesInside(tok, s, m, j - 1);
        assert Fits(tok, m, ch, j - 1);
      }
    }
  }

  lemma NextNone(tok: bytes, s: bytes, m: nat, ch: byte)
    requires Longest(tok, s, m) && m < |tok|
    requires forall d | 0 <= d <= m :: !Fits(tok, m, ch, d)
    ensures Longest(tok, s + [ch], 0)
  {
    forall j: nat | 0 < j <= |tok|
      ensures !Matches(tok, s + [ch], j)
    {
      MatchesSnoc(tok, s, ch, j);
      if j - 1 <= m {
        MatchesInside(tok, s, m, j - 1);
        assert !Fits(tok, m, ch, j - 1);
      }
    }
  }

  lemma EndsIffWhole(tok: bytes, s: bytes, k: nat)
    requires Longest(tok, s, k)
    ensures Ends(tok, s) <==> k == |tok|
  {
  }

  // The matcher -------------------------------------------------------------------------------------------

  class Etoken {
    const text: bytes
    const toktype: int
    var matchto: nat

    constructor (text: bytes, toktype: int)
      ensures this.text == text && this.toktype == toktype && matchto == 0
    {
      this.text, this.toktype, matchto := text, toktype, 0;
    }

    /** One character against one token. The second component says that the token is complete. */
    method Advance(ch: byte, ghost s: bytes) returns (matched: bool)
      requires Longest(text, s, matchto) && matchto < |text|
      modifies this
      ensures Longest(text, s + [ch], matchto) && matchto <= |text|
      ensures matched <==> matchto == |text|
    {
      hide Longest;
      if ch == text[matchto] {
        NextLonger(text, s, matchto, ch);
        matchto := matchto + 1;
        return matchto == |text|;
      }
      var curlen := matchto;
      while curlen >= 0
        invariant -1 <= curlen <= matchto == old(matchto)
        invariant forall d | curlen < d <= matchto :: !Fits(text, matchto, ch, d)
      {
        if Fits(text, matchto, ch, curlen) {
          NextShorter(text, s, matchto, ch, curlen);
          if curlen + 1 == |text| {
            assert false; // the branch marked "can't happen?"
          }
          matchto := curlen + 1;
          return false;
        }
        curlen := curlen - 1;
      }
      NextNone(text, s, matchto, ch);
      matchto := 0;
      return false;
    }
  }

  /** No token ends anywhere in the first n characters. */
  ghost predicate Quiet(toks: seq<Etoken>, input: bytes, n: nat)
    requires n <= |input|
  {
    forall k, i | 0 <= k <= n && 0 <= i < |toks| :: !Ends(toks[i].text, input[..k])
  }

  ghost predicate Tracking(toks: seq<Etoken>, s: bytes)
    reads toks
  {
    forall i | 0 <= i < |toks| :: Longest(toks[i].text, s, toks[i].matchto) && toks[i].matchto < |toks[i].text|
  }

  lemma QuietMore(toks: seq<Etoken>, input: bytes, n: nat)
    requires n < |input| && Quiet(toks, input, n)
    requires forall i | 0 <= i < |toks| :: !Ends(toks[i].text, input[..n + 1])
    ensures Quiet(toks, input, n + 1)
  {
    hide Ends;
  }

  /** How many of n characters read are kept. */
  function Kept(n: nat, maxline: int): nat {
    if n < maxline - 2 then n else if maxline > 2 then maxline - 2 else 0
  }

  /** The save buffer holds the beginning of the text read, as a C string. */
  ghost predicate Saved(buf: bytes, s: bytes, maxline: int) {
    var k := Kept(|s|, maxline);
    k < |buf| && buf[..k] == s[..k] && buf[k] == 0
  }

  method Save(save: array<byte>, ghost s: bytes, nchars: nat, maxline: int, ch: byte) returns (nchars': nat)
    requires save.Length >= 1 && save.Length >= maxline - 1
    requires Saved(save[..], s, maxline) && nchars == 1 + Kept(|s|, maxline)
    modifies save
    ensures Saved(save[..], s + [ch], maxline) && nchars' == 1 + Kept(|s| + 1, maxline)
  {
    nchars' := nchars;
    if nchars < maxline - 1 {
      save[nchars - 1] := ch;
      save[nchars] := 0;
      nchars' := nchars + 1;
    }
  }

  lemma StartsQuiet(toks: seq<Etoken>, input: bytes)
    requires forall i | 0 <= i < |toks| :: toks[i].text != []
    ensures Quiet(toks, input, 0)
  {
  }

  /** One character against every token, in list order; the index of the first one complete, or |toks|. */
  method Feed(toks: seq<Etoken>, ch: byte, ghost s: bytes) returns (hit: nat)
    requires forall i, j | 0 <= i < j < |toks| :: toks[i] != toks[j]
    requires Tracking(toks, s)
    modifies toks
    ensures hit <= |toks|
    ensures forall i | 0 <= i < hit :: !Ends(toks[i].text, s + [ch])
    ensures hit < |toks| ==> Ends(toks[hit].text, s + [ch])
    ensures hit == |toks| ==> Tracking(toks, s + [ch])
  {
    hide Longest, Ends;
    var i := 0;
    while i < |toks|
      invariant 0 <= i <= |toks|
      invariant forall k | 0 <= k < i ::
        Longest(toks[k].text, s + [ch], toks[k].matchto) && toks[k].matchto < |toks[k].text|
      invariant forall k | 0 <= k < i :: !Ends(toks[k].text, s + [ch])
      invariant forall k | i <= k < |toks| ::
        Longest(toks[k].text, s, toks[k].matchto) && toks[k].matchto < |toks[k].text|
    {
      var matched := toks[i].Advance(ch, s);
      EndsIffWhole(toks[i].text, s + [ch], toks[i].matchto);
      if matched {
        return i;
      }
      i := i + 1;
    }
    return i;
  }

  /**
   * The characters in `input` arrive before the timeout or end of file. The token returned is the first in the
   * list of those that end at the earliest place where any token ends; -1 if none does. `save` keeps the text
   * read, as far as maxline allows.
   */
  method ExpectToken(input: bytes, toks: seq<Etoken>, save: array?<byte>, maxline: int)
    returns (toktype: int, n: nat, ghost hit: nat)
    requires forall i, j | 0 <= i < j < |toks| :: toks[i] != toks[j]
    requires forall i | 0 <= i < |toks| :: toks[i].text != [] && 0 !in toks[i].text
    requires save != null ==> save.Length >= 1 && save.Length >= maxline - 1
    modifies toks, if save == null then {} else {save}
    ensures n <= |input| && hit <= |toks|
    ensures hit < |toks| ==>
      && toktype == toks[hit].toktype
      && n > 0 && Quiet(toks, input, n - 1)
      && Ends(toks[hit].text, input[..n])
      && forall i | 0 <= i < hit :: !Ends(toks[i].text, input[..n])
    ensures hit == |toks| ==> toktype == -1 && n == |input| && Quiet(toks, input, |input|)
    ensures save != null ==> Saved(save[..], input[..n], maxline)
  {
    hide Longest, Ends, Quiet, Tracking, Saved;
    for i := 0 to |toks|
      invariant forall k | 0 <= k < i :: toks[k].matchto == 0
    {
      toks[i].matchto := 0;
    }
    var nchars := 1;
    if save != null {
      save[0] := 0;
      SavedNothing(save[..], maxline);
    }
    n := 0;
    NothingRead(toks);
    StartsQuiet(toks, input);
    assert input[..0] == [];
    while n < |input|
      invariant n <= |input|
      invariant Tracking(toks, input[..n])
      invariant Quiet(toks, input, n)
      invariant save != null ==> Saved(save[..], input[..n], maxline) && nchars == 1 + Kept(n, maxline)
    {
      var ch := input[n];
      if save != null {
        nchars := Save(save, input[..n], nchars, maxline, ch);
      }
      assert input[..n + 1] == input[..n] + [ch];
      var h := Feed(toks, ch, input[..n]);
      n := n + 1;
      if h < |toks| {
        return toks[h].toktype, n, h;
      }
      QuietMore(toks, input, n - 1);
    }
    assert input[..n] == input;
    return -1, n, |toks|;
  }

  lemma SavedNothing(buf: bytes, maxline: int)
    requires buf != [] && buf[0] == 0
    ensures Saved(buf, [], maxline) && Kept(0, maxline) == 0
  {
  }

  lemma NothingRead(toks: seq<Etoken>)
    requires forall i | 0 <= i < |toks| :: toks[i].text != [] && toks[i].matchto == 0
    ensures Tracking(toks, [])
  {
  }
}
