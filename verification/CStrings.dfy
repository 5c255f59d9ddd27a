/** C character data: NUL-terminated strings, tokens, and the library calls the program leans on.
    One element of `Bytes` stands for one C `char`; UTF-8 text is written byte by byte. */
module CStrings {
  import opened Options

  type Bytes = string

  const NUL: char := '\0'

  predicate Free(s: Bytes, ds: set<char>) {
    forall k :: 0 <= k < |s| ==> s[k] !in ds
  }

  /** How many leading bytes lie outside `ds` (strcspn). */
  function Span(s: Bytes, ds: set<char>): (n: nat)
    ensures n <= |s| && (forall k :: 0 <= k < n ==> s[k] !in ds) && (n < |s| ==> s[n] in ds)
  {
    if s == [] || s[0] in ds then 0 else 1 + Span(s[1..], ds)
  }

  /** The C string stored at the front of `s`: everything before the first NUL. */
  function CStr(s: Bytes): Bytes {
    s[..Span(s, {NUL})]
  }

  /** The maximal runs of bytes outside `ds`, in order. */
  function Tokens(s: Bytes, ds: set<char>): (ts: seq<Bytes>)
    ensures forall t :: t in ts ==> t != [] && Free(t, ds)
    decreases |s|
  {
    if s == [] then []
    else if s[0] in ds then Tokens(s[1..], ds)
    else
      var n := Span(s, ds);
      [s[..n]] + Tokens(s[n..], ds)
  }

  /** What snprintf or a NUL-terminated strncpy leaves in a buffer of `size` bytes. */
  function Clip(s: Bytes, size: nat): (r: Bytes)
    requires size > 0
    ensures r <= s && |r| < size && (|s| < size ==> r == s)
  {
    if |s| < size then s else s[..size - 1]
  }

  function Join(fields: seq<Bytes>, sep: Bytes): Bytes {
    if |fields| == 0 then []
    else if |fields| == 1 then fields[0]
    else fields[0] + sep + Join(fields[1..], sep)
  }

  function NonEmpty(fields: seq<Bytes>): (r: seq<Bytes>)
    ensures |r| <= |fields|
    ensures (forall k :: 0 <= k < |fields| ==> fields[k] != []) ==> r == fields
  {
    if fields == [] then []
    else
      assert fields == [fields[0]] + fields[1..];
      if fields[0] == [] then NonEmpty(fields[1..]) else [fields[0]] + NonEmpty(fields[1..])
  }

  /** Equation 1 of the pair that determines Tokens: a delimiter separates. */
  lemma {:induction false} TokensSplit(a: Bytes, d: char, b: Bytes, ds: set<char>)
    requires d in ds
    ensures Tokens(a + [d] + b, ds) == Tokens(a, ds) + Tokens(b, ds)
    decreases |a|
  {
    var s := a + [d] + b;
    if a == [] {
      assert s[1..] == b;
    } else if a[0] in ds {
      assert s[1..] == a[1..] + [d] + b;
      TokensSplit(a[1..], d, b, ds);
    } else {
      var n := Span(a, ds);
      assert a == a[..n] + a[n..] && s == a[..n] + (a[n..] + [d] + b);
      TokensSplit(a[n..], d, b, ds);
      RunThenRest(a[..n], a[n..] + [d] + b, ds);
      RunThenRest(a[..n], a[n..], ds);
    }
  }

  lemma RunThenRest(run: Bytes, rest: Bytes, ds: set<char>)
    requires run != [] && Free(run, ds) && (rest != [] ==> rest[0] in ds)
    ensures Tokens(run + rest, ds) == [run] + Tokens(rest, ds)
  {
    var s := run + rest;
    SpanIs(s, |run|, ds);
    assert s[..|run|] == run && s[|run|..] == rest;
  }

  /** Equation 2: a nonempty delimiter-free string is one token. */
  lemma TokensOfOne(s: Bytes, ds: set<char>)
    requires Free(s, ds)
    ensures Tokens(s, ds) == if s == [] then [] else [s]
  {
    if s != [] {
      SpanIs(s, |s|, ds);
      assert s[..|s|] == s;
    }
  }

  lemma SpanIs(s: Bytes, n: nat, ds: set<char>)
    requires n <= |s|
    requires forall k :: 0 <= k < n ==> s[k] !in ds
    requires n < |s| ==> s[n] in ds
    ensures Span(s, ds) == n
  {
  }

  lemma {:induction false} TokensSkip(sep: Bytes, s: Bytes, ds: set<char>)
    requires forall k :: 0 <= k < |sep| ==> sep[k] in ds
    ensures Tokens(sep + s, ds) == Tokens(s, ds)
  {
    if sep == [] {
      assert sep + s == s;
    } else {
      assert (sep + s)[1..] == sep[1..] + s;
      TokensSkip(sep[1..], s, ds);
    }
  }

  /** Splitting undoes joining, except that empty fields vanish. */
  lemma {:induction false} TokensOfJoin(fields: seq<Bytes>, sep: Bytes, ds: set<char>)
    requires sep != [] && forall k :: 0 <= k < |sep| ==> sep[k] in ds
    requires forall f :: f in fields ==> Free(f, ds)
    ensures Tokens(Join(fields, sep), ds) == NonEmpty(fields)
  {
    if |fields| == 1 {
      TokensOfOne(fields[0], ds);
    } else if |fields| > 1 {
      TokensOfJoin(fields[1..], sep, ds);
      TokensOfTwo(fields[0], sep, Join(fields[1..], sep), ds);
    }
  }

  lemma TokensOfTwo(first: Bytes, sep: Bytes, rest: Bytes, ds: set<char>)
    requires sep != [] && (forall k :: 0 <= k < |sep| ==> sep[k] in ds) && Free(first, ds)
    ensures Tokens(first + sep + rest, ds) == (if first == [] then [] else [first]) + Tokens(rest, ds)
  {
    TokensOfOne(first, ds);
    assert first + sep + rest == first + [sep[0]] + (sep[1..] + rest);
    TokensSplit(first, sep[0], sep[1..] + rest, ds);
    TokensSkip(sep[1..], rest, ds);
  }

  /** Tokens contain no byte that the string does not. */
  lemma {:induction false} TokenBytes(s: Bytes, ds: set<char>, bad: char)
    requires bad !in s
    ensures forall k :: 0 <= k < |Tokens(s, ds)| ==> bad !in Tokens(s, ds)[k]
    decreases |s|
  {
    if s != [] {
      if s[0] in ds {
        TokenBytes(s[1..], ds, bad);
      } else {
        var n := Span(s, ds);
        TokenBytes(s[n..], ds, bad);
        assert bad !in s[..n];
      }
    }
  }

  /** strcmp: the sign of the first difference, a proper prefix being smaller. */
  function StrCmp(a: Bytes, b: Bytes): (r: int)
    ensures r == 0 <==> a == b
  {
    if a == [] then (if b == [] then 0 else -1)
    else if b == [] then 1
    else if a[0] != b[0] then (if a[0] < b[0] then -1 else 1)
    else
      assert a == b <==> a[1..] == b[1..] by {
        assert a == [a[0]] + a[1..] && b == [b[0]] + b[1..];
      }
      StrCmp(a[1..], b[1..])
  }

  /** strtok: a buffer holding a C string that ends at `end`, and the position saved between calls. */
  class Strtok {
    const buf: array<char>
    ghost const end: nat
    var next: nat

    ghost predicate Valid()
      reads this, buf
    {
      next <= end < buf.Length && buf[end] == NUL && Free(buf[next..end], {NUL})
    }

    /** The part of the string not yet handed out. */
    ghost function Rest(): Bytes
      requires Valid()
      reads this, buf
    {
      buf[next..end]
    }

    constructor (buf: array<char>, ghost len: nat)
      requires len < buf.Length && buf[len] == NUL && Free(buf[..len], {NUL})
      ensures this.buf == buf && next == 0 && end == len && Valid()
    {
      this.buf, next, end := buf, 0, len;
    }

    /** One call: either the string is used up, or the next token now sits at `start`, ended at
        `stop` by the only byte written, and what is left tokenises as before. */
    method Next(delims: set<char>) returns (found: bool, start: nat, ghost stop: nat)
      requires Valid() && NUL !in delims
      modifies this`next, buf
      ensures Valid()
      ensures forall k :: 0 <= k < buf.Length && (!found || k != stop) ==> buf[k] == old(buf[k])
      ensures !found ==> Tokens(old(Rest()), delims) == [] && Rest() == []
      ensures found ==> old(next) <= start < stop <= next && buf[stop] == NUL && (stop < next || stop == end)
      ensures found ==> Tokens(old(Rest()), delims) == [old(buf[start..stop])] + Tokens(Rest(), delims)
    {
      start := SkipDelims(delims);
      stop := start;
      if buf[start] == NUL {
        next := start;
        return false, start, stop;
      }
      var i := ScanToken(start, delims);
      stop := i;
      if buf[i] == NUL {
        next := i;
        assert buf[i..end] == [];
      } else {
        ghost var tail := buf[i..end];
        assert tail[1..] == buf[i + 1..end];
        buf[i] := NUL;
        next := i + 1;
        assert Rest() == tail[1..];
        assert forall k :: 0 <= k < |Rest()| ==> Rest()[k] == tail[k + 1];
      }
      found := true;
    }

    method SkipDelims(delims: set<char>) returns (start: nat)
      requires Valid() && NUL !in delims
      ensures next <= start <= end && (start == end <==> buf[start] == NUL)
      ensures start < end ==> buf[start] !in delims
      ensures Free(buf[start..end], {NUL})
      ensures Tokens(buf[next..end], delims) == Tokens(buf[start..end], delims)
    {
      start := next;
      while buf[start] != NUL && buf[start] in delims
        invariant next <= start <= end
        invariant Tokens(buf[next..end], delims) == Tokens(buf[start..end], delims)
        decreases end - start
      {
        assert buf[start..end][1..] == buf[start + 1..end];
        start := start + 1;
      }
      assert forall k :: start <= k < end ==> buf[k] == buf[next..end][k - next];
    }

    method ScanToken(start: nat, delims: set<char>) returns (i: nat)
      requires start < end < buf.Length && buf[end] == NUL && Free(buf[start..end], {NUL})
      requires buf[start] !in delims
      ensures start < i <= end && (i == end <==> buf[i] == NUL) && Free(buf[i..end], {NUL})
      ensures i < end ==> buf[i] in delims
      ensures Tokens(buf[start..end], delims) == [buf[start..i]] + Tokens(buf[i..end], delims)
    {
      ghost var tail := buf[start..end];
      i := start;
      while buf[i] != NUL && buf[i] !in delims
        invariant start <= i <= end
        invariant forall k :: start <= k < i ==> buf[k] !in delims
        decreases end - i
      {
        i := i + 1;
      }
      assert forall k :: start <= k < end ==> buf[k] == tail[k - start];
      SpanIs(tail, i - start, delims);
      assert tail[..i - start] == buf[start..i];
      assert tail[i - start..] == buf[i..end];
    }
  }

  /** A pointer strtok handed out: `token` lies at `start`, ended by a NUL that no later call moves. */
  ghost predicate PointsAt(tok: Strtok, start: nat, token: Bytes)
    reads tok, tok.buf
  {
    var stop := start + |token|;
    tok.Valid() && stop < tok.buf.Length && tok.buf[start..stop] == token &&
    Free(token, {NUL}) && tok.buf[stop] == NUL &&
    stop <= tok.next && (stop < tok.next || stop == tok.end)
  }

  /** strtok called again and again, at most `count` times: the pointers it returned, in order. Each
      still points at its token when the last call has been made, and so do pointers handed out before. */
  method TakeTokens(tok: Strtok, count: nat, delims: set<char>) returns (starts: seq<nat>)
    requires tok.Valid() && NUL !in delims
    modifies tok`next, tok.buf
    ensures tok.Valid() && tok.next >= old(tok.next)
    ensures forall k :: 0 <= k < old(tok.next) && k < tok.buf.Length ==> tok.buf[k] == old(tok.buf[k])
    ensures var all := Tokens(old(tok.Rest()), delims);
            && |starts| == (if |all| < count then |all| else count)
            && Tokens(tok.Rest(), delims) == all[|starts|..]
            && forall k :: 0 <= k < |starts| ==> PointsAt(tok, starts[k], all[k])
  {
    starts := [];
    ghost var all := Tokens(tok.Rest(), delims);
    while |starts| < count
      invariant |starts| <= count && |starts| <= |all| && tok.Valid() && tok.next >= old(tok.next)
      invariant forall k :: 0 <= k < old(tok.next) && k < tok.buf.Length ==> tok.buf[k] == old(tok.buf[k])
      invariant Tokens(tok.Rest(), delims) == all[|starts|..]
      invariant forall k :: 0 <= k < |starts| ==> PointsAt(tok, starts[k], all[k])
      decreases count - |starts|
    {
      ghost var taken, left := all[..|starts|], all[|starts|..];
      var found, start := OneToken(tok, delims, starts, taken);
      if !found { return; }
      assert left[0] == all[|starts|] && left[1..] == all[|starts| + 1..];
      assert forall k :: 0 <= k < |taken| ==> taken[k] == all[k];
      starts := starts + [start];
    }
  }

  method OneToken(tok: Strtok, delims: set<char>, ghost starts: seq<nat>, ghost earlier: seq<Bytes>)
    returns (found: bool, start: nat)
    requires tok.Valid() && NUL !in delims && |starts| == |earlier|
    requires forall k :: 0 <= k < |starts| ==> PointsAt(tok, starts[k], earlier[k])
    modifies tok`next, tok.buf
    ensures tok.Valid() && tok.next >= old(tok.next)
    ensures forall k :: 0 <= k < old(tok.next) && k < tok.buf.Length ==> tok.buf[k] == old(tok.buf[k])
    ensures forall k :: 0 <= k < |starts| ==> PointsAt(tok, starts[k], earlier[k])
    ensures var all := Tokens(old(tok.Rest()), delims);
            if found then all != [] && PointsAt(tok, start, all[0]) && Tokens(tok.Rest(), delims) == all[1..]
            else all == [] && Tokens(tok.Rest(), delims) == []
  {
    ghost var copy, rest, from := tok.buf[..], tok.Rest(), tok.next;
    ghost var stop;
    found, start, stop := tok.Next(delims);
    forall k | 0 <= k < |starts|
      ensures PointsAt(tok, starts[k], earlier[k])
    {
      assert tok.buf[starts[k]..starts[k] + |earlier[k]|] == copy[starts[k]..starts[k] + |earlier[k]|];
    }
    if found {
      var token := copy[start..stop];
      assert tok.buf[start..stop] == token;
      assert forall k :: start <= k < stop ==> copy[k] == rest[k - from];
      assert start + |token| == stop;
    }
  }

  /** The string behind a pointer. */
  method StringAt(buf: array<char>, start: nat, ghost token: Bytes) returns (s: Bytes)
    requires start + |token| < buf.Length && buf[start..start + |token|] == token
    requires Free(token, {NUL}) && buf[start + |token|] == NUL
    ensures s == token
  {
    var i := start;
    assert forall k :: start <= k < start + |token| ==> buf[k] == token[k - start];
    while buf[i] != NUL
      invariant start <= i <= start + |token|
      decreases start + |token| - i
    {
      i := i + 1;
    }
    s := buf[start..i];
  }

  /** The first token, None when strtok returns NULL; the rest is left for later calls. */
  method FirstToken(tok: Strtok, delims: set<char>, ghost all: seq<Bytes>) returns (token: Option<Bytes>)
    requires tok.Valid() && NUL !in delims && Tokens(tok.Rest(), delims) == all
    modifies tok`next, tok.buf
    ensures token == if all == [] then None else Some(all[0])
    ensures all != [] ==> tok.Valid() && Tokens(tok.Rest(), delims) == all[1..]
  {
    var first := TakeTokens(tok, 1, delims);
    if first == [] { return None; }
    var s := StringAt(tok.buf, first[0], all[0]);
    token := Some(s);
  }
}
