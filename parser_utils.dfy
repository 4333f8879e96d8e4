/**
 * The two helpers of Draco's parser_utils that the STL reader uses: skipping
 * whitespace and reading one whitespace-delimited token.  Positions are
 * offsets into the buffer's data; a position past the end reads nothing.
 */
module ParserUtils {
  import opened Bytes
  import opened DecoderBuffers

  /** isspace in the C locale: space, tab, newline, vertical tab, form feed, carriage return. */
  predicate IsSpace(c: byte) {
    c == 0x20 || 0x09 <= c <= 0x0D
  }

  /** Where whitespace skipping from p stops: the first non-whitespace byte at or after p. */
  function SkipWs(d: seq<byte>, p: nat): (q: nat)
    ensures p <= q
    ensures q == p || q <= |d|
    ensures q < |d| ==> !IsSpace(d[q])
    decreases |d| - p
  {
    if p < |d| && IsSpace(d[p]) then SkipWs(d, p + 1) else p
  }

  /** Where a token starting at s ends: the first whitespace byte at or after s, or the end. */
  function TokenEnd(d: seq<byte>, s: nat): (e: nat)
    ensures s <= e
    ensures e == s || e <= |d|
    ensures e < |d| ==> IsSpace(d[e])
    decreases |d| - s
  {
    if s < |d| && !IsSpace(d[s]) then TokenEnd(d, s + 1) else s
  }

  /** The position after the token read from q (leading whitespace skipped). */
  function NextPos(d: seq<byte>, q: nat): (e: nat)
    ensures q <= e
    ensures q <= |d| ==> e <= |d|
  {
    TokenEnd(d, SkipWs(d, q))
  }

  /** The token read from q: the maximal run of non-whitespace bytes after the whitespace. */
  function TokenText(d: seq<byte>, q: nat): (t: seq<byte>)
    ensures |t| == NextPos(d, q) - SkipWs(d, q)
  {
    var s := SkipWs(d, q);
    if s <= |d| then d[s..TokenEnd(d, s)] else []
  }

  /** The position after k tokens read from p. */
  function TokPos(d: seq<byte>, p: nat, k: nat): (q: nat)
    ensures p <= q
    ensures p <= |d| ==> q <= |d|
  {
    if k == 0 then p else NextPos(d, TokPos(d, p, k - 1))
  }

  /** The k-th token (from 0) read from p. */
  function TokenAt(d: seq<byte>, p: nat, k: nat): seq<byte> {
    TokenText(d, TokPos(d, p, k))
  }

  lemma {:induction false} TokPosMonotone(d: seq<byte>, p: nat, j: nat, k: nat)
    requires j <= k
    ensures TokPos(d, p, j) <= TokPos(d, p, k)
    decreases k
  {
    if j < k {
      TokPosMonotone(d, p, j, k - 1);
    }
  }

  /** parser::SkipWhitespace. */
  method SkipWhitespace(b: DecoderBuffer) returns (b': DecoderBuffer)
    ensures b'.data == b.data && b'.pos == SkipWs(b.data, b.pos)
  {
    b' := b;
    var ok, c := Peek(b');
    while ok && IsSpace(c)
      invariant b'.data == b.data && b.pos <= b'.pos
      invariant SkipWs(b.data, b'.pos) == SkipWs(b.data, b.pos)
      invariant ok <==> b'.pos < |b.data|
      invariant ok ==> c == b.data[b'.pos]
      decreases |b.data| - b'.pos
    {
      b' := Advance(b', 1);
      ok, c := Peek(b');
    }
  }

  /**
   * parser::ParseString: skips whitespace, then consumes and returns the
   * maximal run of non-whitespace bytes (empty at the end of the data).
   */
  method ParseString(b: DecoderBuffer) returns (token: seq<byte>, b': DecoderBuffer)
    ensures token == TokenText(b.data, b.pos)
    ensures b'.data == b.data && b'.pos == NextPos(b.data, b.pos)
  {
    b' := SkipWhitespace(b);
    ghost var d := b.data;
    ghost var s := b'.pos;
    token := [];
    var ok, c := Peek(b');
    while ok && !IsSpace(c)
      invariant b'.data == d
      invariant s <= b'.pos <= TokenEnd(d, s)
      invariant TokenEnd(d, b'.pos) == TokenEnd(d, s)
      invariant s <= |d| ==> token == d[s..b'.pos]
      invariant s > |d| ==> token == [] && b'.pos == s
      invariant ok <==> b'.pos < |d|
      invariant ok ==> c == d[b'.pos]
      decreases |d| - b'.pos
    {
      var one;
      ok, one, b' := Decode(b', 1);
      token := token + one;
      ok, c := Peek(b');
    }
  }
}
