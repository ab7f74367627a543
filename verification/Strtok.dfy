/** strtok_r and the scans it is made of. Memory is an array of characters, a pointer is a position in
    it or null, and a string reaches up to the first NUL. The delimiters are given by value, without
    their terminator. */
module Strtok {
  import opened Options

  const NUL: char := '\0'

  /** The string at p ends at end. */
  ghost predicate Text(t: string, p: nat, end: nat) {
    p <= end < |t| && t[end] == NUL && forall i :: p <= i < end ==> t[i] != NUL
  }

  // ----- the scans -----

  /** The first position from p on that is not a delimiter, or the end. */
  function SpanEnd(t: string, p: nat, end: nat, d: string): (r: nat)
    requires p <= end < |t|
    ensures p <= r <= end && (forall i :: p <= i < r ==> t[i] in d) && (r < end ==> t[r] !in d)
    decreases end - p
  {
    if p < end && t[p] in d then SpanEnd(t, p + 1, end, d) else p
  }

  function TokenEnd(t: string, p: nat, end: nat, d: string): (r: nat)
    requires p <= end < |t|
    ensures p <= r <= end && (forall i :: p <= i < r ==> t[i] !in d) && (r < end ==> t[r] in d)
    decreases end - p
  {
    if p < end && t[p] !in d then TokenEnd(t, p + 1, end, d) else p
  }

  method StrChr(s: string, c: char) returns (r: Option<nat>)
    requires NUL !in s
    ensures c != NUL && c !in s ==> r == None
    ensures c != NUL && c in s ==> r.Some? && r.value < |s| && s[r.value] == c && c !in s[..r.value]
    ensures c == NUL ==> r == Some(|s|)
  {
    var i: nat := 0;
    while (if i < |s| then s[i] else NUL) != c
      invariant i <= |s| && c !in s[..i]
      decreases |s| - i
    {
      if i == |s| {
        return None;
      }
      i := i + 1;
    }
    return Some(i);
  }

  method StrSpn(a: array<char>, s: nat, d: string, ghost end: nat) returns (n: nat)
    requires Text(a[..], s, end) && NUL !in d
    ensures s + n == SpanEnd(a[..], s, end, d)
  {
    n := 0;
    while a[s + n] != NUL
      invariant s + n <= end && SpanEnd(a[..], s, end, d) == SpanEnd(a[..], s + n, end, d)
      decreases end - n
    {
      var found := StrChr(d, a[s + n]);
      if found == None {
        return;
      }
      n := n + 1;
    }
  }

  method StrCspn(a: array<char>, s: nat, d: string, ghost end: nat) returns (n: nat)
    requires Text(a[..], s, end) && NUL !in d
    ensures s + n == TokenEnd(a[..], s, end, d)
  {
    n := 0;
    while a[s + n] != NUL
      invariant s + n <= end && TokenEnd(a[..], s, end, d) == TokenEnd(a[..], s + n, end, d)
      decreases end - n
    {
      var found := StrChr(d, a[s + n]);
      if found.Some? {
        return;
      }
      n := n + 1;
    }
  }

  // ----- one call -----

  /** The token found, if any, by its first position and the one past its last; the saved pointer and
      the memory afterwards. */
  datatype Call = Call(token: Option<Token>, save: Option<nat>, text: string)

  datatype Token = Token(start: nat, stop: nat)

  function NextToken(t: string, p: nat, end: nat, d: string): Call
    requires p <= end < |t|
  {
    var start := SpanEnd(t, p, end, d);
    var stop := TokenEnd(t, start, end, d);
    if stop == start then Call(None, None, t)
    else if stop == end then Call(Some(Token(start, stop)), None, t)
    else Call(Some(Token(start, stop)), Some(stop + 1), t[stop := NUL])
  }

  method StrtokR(a: array<char>, str: Option<nat>, delim: string, saveptr: Option<nat>, ghost end: nat)
    returns (token: Option<nat>, save: Option<nat>)
    requires NUL !in delim
    requires str.Some? ==> Text(a[..], str.value, end)
    requires str == None && saveptr.Some? ==> Text(a[..], saveptr.value, end)
    modifies a
    ensures str == None && saveptr == None ==> token == None && save == None && a[..] == old(a[..])
    ensures str.Some? || saveptr.Some? ==>
      var c := NextToken(old(a[..]), if str.Some? then str.value else saveptr.value, end, delim);
      && token == (if c.token.Some? then Some(c.token.value.start) else None)
      && save == c.save && a[..] == c.text
  {
    if str == None && saveptr == None {
      return None, None;
    }
    var p := if str.Some? then str.value else saveptr.value;
    var skip := StrSpn(a, p, delim, end);
    var start := p + skip;
    var length := StrCspn(a, start, delim, end);
    p := start + length;
    if p == start {
      return None, None;
    }
    if a[p] != NUL {
      a[p] := NUL;
      save := Some(p + 1);
    } else {
      save := None;
    }
    token := Some(start);
  }

  // ----- calling it until it returns null -----

  /** The tokens in the order they are returned, and the memory afterwards. */
  ghost function AllTokens(t: string, p: nat, end: nat, d: string): (seq<Token>, string)
    requires p <= end < |t|
    decreases end - p
  {
    var c := NextToken(t, p, end, d);
    if c.token == None then ([], c.text)
    else if c.save == None then ([c.token.value], c.text)
    else
      var rest := AllTokens(c.text, c.save.value, end, d);
      ([c.token.value] + rest.0, rest.1)
  }

  /** A non-empty run without delimiters that cannot be extended in the string at p. */
  ghost predicate Maximal(t: string, p: nat, end: nat, d: string, k: Token) {
    && p <= k.start < k.stop <= end < |t|
    && (forall i :: k.start <= i < k.stop ==> t[i] !in d)
    && (k.start == p || t[k.start - 1] in d)
    && (k.stop == end || t[k.stop] in d)
  }

  /** Up to its first delimiter, a string holds no other maximal run than its first token. */
  lemma FirstIsOnly(t: string, p: nat, end: nat, d: string, k: Token)
    requires p <= end < |t|
    ensures var start := SpanEnd(t, p, end, d);
            var stop := TokenEnd(t, start, end, d);
            k.start <= stop ==> (Maximal(t, p, end, d, k) <==> start < stop && k == Token(start, stop))
  {
    var start := SpanEnd(t, p, end, d);
    var stop := TokenEnd(t, start, end, d);
    if Maximal(t, p, end, d, k) && k.start <= stop {
      assert t[k.start] !in d;
    }
  }

  /** Behind a delimiter at stop, maximal runs do not depend on what came before. */
  lemma RestIsIndependent(t: string, p: nat, end: nat, d: string, stop: nat, k: Token)
    requires p <= stop < end < |t| && t[stop] in d && k.start > stop
    ensures Maximal(t, p, end, d, k) <==> Maximal(t[stop := NUL], stop + 1, end, d, k)
  {
    var u := t[stop := NUL];
    assert forall i :: stop < i < |t| ==> u[i] == t[i];
  }

  ghost predicate ExactlyMaximal(tokens: seq<Token>, t: string, p: nat, end: nat, d: string) {
    forall k :: k in tokens <==> Maximal(t, p, end, d, k)
  }

  ghost predicate LeftToRight(tokens: seq<Token>) {
    forall i :: 0 <= i < |tokens| - 1 ==> tokens[i].stop < tokens[i + 1].start
  }

  ghost predicate EndsToken(tokens: seq<Token>, x: nat, end: nat) {
    x < end && exists k :: k in tokens && k.stop == x
  }

  /** u is t with a NUL for each delimiter that ended a token. */
  ghost predicate Terminated(t: string, u: string, tokens: seq<Token>, end: nat) {
    |u| == |t| && forall x: nat :: x < |t| ==> u[x] == if EndsToken(tokens, x, end) then NUL else t[x]
  }

  lemma RestTerminated(t: string, u: string, first: Token, rest: seq<Token>, end: nat)
    requires first.stop < end < |t| && Terminated(t[first.stop := NUL], u, rest, end)
    ensures Terminated(t, u, [first] + rest, end)
  {
    var tokens := [first] + rest;
    forall x: nat | x < |t|
      ensures EndsToken(tokens, x, end) <==> x == first.stop || EndsToken(rest, x, end)
    {
      assert first in tokens;
      if EndsToken(rest, x, end) {
        var k :| k in rest && k.stop == x;
        assert k in tokens;
      }
    }
  }

  lemma RestMaximal(t: string, p: nat, end: nat, d: string, first: Token, rest: seq<Token>)
    requires p <= end < |t| && first.stop < end
    requires NextToken(t, p, end, d) == Call(Some(first), Some(first.stop + 1), t[first.stop := NUL])
    requires ExactlyMaximal(rest, t[first.stop := NUL], first.stop + 1, end, d)
    ensures ExactlyMaximal([first] + rest, t, p, end, d)
  {
    forall k: Token
      ensures k in [first] + rest <==> Maximal(t, p, end, d, k)
    {
      FirstIsOnly(t, p, end, d, k);
      if k.start > first.stop {
        RestIsIndependent(t, p, end, d, first.stop, k);
      }
    }
  }

  /** Calling strtok_r until it returns null yields exactly the maximal delimiter-free runs of the
      original text, from left to right. The memory changes only where a token ended at a delimiter:
      there a NUL takes its place, so each token has become a string of its own. */
  lemma {:induction false} TokensAreMaximalRuns(t: string, p: nat, end: nat, d: string)
    requires p <= end < |t|
    ensures ExactlyMaximal(AllTokens(t, p, end, d).0, t, p, end, d)
    ensures LeftToRight(AllTokens(t, p, end, d).0)
    ensures Terminated(t, AllTokens(t, p, end, d).1, AllTokens(t, p, end, d).0, end)
    decreases end - p
  {
    var c := NextToken(t, p, end, d);
    if c.save.Some? {
      var first := c.token.value;
      var (rest, u) := AllTokens(c.text, c.save.value, end, d);
      TokensAreMaximalRuns(c.text, c.save.value, end, d);
      RestTerminated(t, u, first, rest, end);
      RestMaximal(t, p, end, d, first, rest);
      assert rest != [] ==> Maximal(c.text, c.save.value, end, d, rest[0]);
    } else {
      LastToken(t, p, end, d);
    }
  }

  lemma LastToken(t: string, p: nat, end: nat, d: string)
    requires p <= end < |t| && NextToken(t, p, end, d).save == None
    ensures ExactlyMaximal(AllTokens(t, p, end, d).0, t, p, end, d)
    ensures Terminated(t, t, AllTokens(t, p, end, d).0, end)
  {
    forall k: Token
      ensures k in AllTokens(t, p, end, d).0 <==> Maximal(t, p, end, d, k)
    {
      FirstIsOnly(t, p, end, d, k);
    }
  }

  /** In the end each token is a string of its own, with the characters it had in the text. */
  lemma TokensBecomeStrings(t: string, p: nat, end: nat, d: string, k: Token)
    requires Text(t, p, end) && k in AllTokens(t, p, end, d).0
    ensures var u := AllTokens(t, p, end, d).1;
      Text(u, k.start, k.stop) && k.stop <= end && u[k.start..k.stop] == t[k.start..k.stop]
  {
    var (tokens, u) := AllTokens(t, p, end, d);
    TokensAreMaximalRuns(t, p, end, d);
    assert Maximal(t, p, end, d, k);
    forall x: nat | EndsToken(tokens, x, end)
      ensures t[x] in d
    {
      var other :| other in tokens && other.stop == x;
      assert Maximal(t, p, end, d, other);
    }
    assert k.stop < end ==> EndsToken(tokens, k.stop, end);
    assert !EndsToken(tokens, end, end);
  }
}
