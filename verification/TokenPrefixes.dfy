/** Tokens of a string cut short. */
module TokenPrefixes {
  import opened CStrings

  function CountOutside(s: Bytes, ds: set<char>): nat {
    if s == [] then 0 else (if s[0] in ds then 0 else 1) + CountOutside(s[1..], ds)
  }

  function Sizes(ts: seq<Bytes>): nat {
    if ts == [] then 0 else |ts[0]| + Sizes(ts[1..])
  }

  lemma {:induction false} CountSplits(a: Bytes, b: Bytes, ds: set<char>)
    ensures CountOutside(a + b, ds) == CountOutside(a, ds) + CountOutside(b, ds)
  {
    if a == [] {
      assert a + b == b;
    } else {
      assert (a + b)[1..] == a[1..] + b;
      CountSplits(a[1..], b, ds);
    }
  }

  lemma {:induction false} CountFree(s: Bytes, ds: set<char>)
    requires forall k :: 0 <= k < |s| ==> s[k] !in ds
    ensures CountOutside(s, ds) == |s|
  {
    if s != [] { CountFree(s[1..], ds); }
  }

  lemma {:induction false} TokensHoldAll(s: Bytes, ds: set<char>)
    ensures Sizes(Tokens(s, ds)) == CountOutside(s, ds)
    decreases |s|
  {
    if s != [] {
      if s[0] in ds {
        TokensHoldAll(s[1..], ds);
      } else {
        var n := Span(s, ds);
        TokensHoldAll(s[n..], ds);
        CountSplits(s[..n], s[n..], ds);
        CountFree(s[..n], ds);
        assert s == s[..n] + s[n..];
        assert Tokens(s, ds)[1..] == Tokens(s[n..], ds);
      }
    }
  }

  lemma {:induction false} PrefixTokens(p: Bytes, s: Bytes, ds: set<char>)
    requires p <= s
    ensures |Tokens(p, ds)| <= |Tokens(s, ds)|
    ensures forall k :: 0 <= k < |Tokens(p, ds)| ==> Tokens(p, ds)[k] <= Tokens(s, ds)[k]
    ensures forall k :: 0 <= k < |Tokens(p, ds)| - 1 ==> Tokens(p, ds)[k] == Tokens(s, ds)[k]
    decreases |p|
  {
    if p != [] {
      if p[0] in ds {
        PrefixTokens(p[1..], s[1..], ds);
      } else {
        var n := Span(p, ds);
        if n < |p| {
          SpanIs(s, n, ds);
          PrefixTokens(p[n..], s[n..], ds);
          assert p[..n] == s[..n];
        } else {
          TokensOfOne(p, ds);
          assert forall k :: 0 <= k < n ==> s[k] == p[k];
        }
      }
    }
  }

  lemma SameCountSameEnd(p: Bytes, s: Bytes, ds: set<char>)
    requires p <= s && CountOutside(p, ds) == CountOutside(s, ds) && s != [] && s[|s| - 1] !in ds
    ensures p == s
  {
    if p != s {
      assert s == p + s[|p|..];
      TailCounts(p, s[|p|..], ds);
    }
  }

  lemma SameTokensSameCount(p: Bytes, s: Bytes, ds: set<char>)
    requires Tokens(p, ds) == Tokens(s, ds)
    ensures CountOutside(p, ds) == CountOutside(s, ds)
  {
    TokensHoldAll(p, ds);
    TokensHoldAll(s, ds);
  }

  lemma TailCounts(p: Bytes, rest: Bytes, ds: set<char>)
    requires rest != [] && rest[|rest| - 1] !in ds
    ensures CountOutside(p + rest, ds) > CountOutside(p, ds)
  {
    CountSplits(p, rest, ds);
    EndCounts(rest, ds);
  }

  lemma EndCounts(s: Bytes, ds: set<char>)
    requires s != [] && s[|s| - 1] !in ds
    ensures CountOutside(s, ds) > 0
  {
    var front, last := s[..|s| - 1], [s[|s| - 1]];
    assert s == front + last;
    CountSplits(front, last, ds);
    CountFree(last, ds);
  }

  /** Where the last token is a single byte, a proper prefix has lost that token. */
  lemma FewerTokens(p: Bytes, s: Bytes, ds: set<char>)
    requires p <= s && p != s && s[|s| - 1] !in ds
    requires Tokens(s, ds) != [] && |Tokens(s, ds)[|Tokens(s, ds)| - 1]| == 1
    ensures |Tokens(p, ds)| < |Tokens(s, ds)|
  {
    PrefixTokens(p, s, ds);
    if |Tokens(p, ds)| == |Tokens(s, ds)| {
      var n := |Tokens(s, ds)| - 1;
      assert Tokens(p, ds)[n] in Tokens(p, ds) && Tokens(p, ds)[n] == Tokens(s, ds)[n];
      assert forall k :: 0 <= k <= n ==> Tokens(p, ds)[k] == Tokens(s, ds)[k];
      SameTokensSameCount(p, s, ds);
      SameCountSameEnd(p, s, ds);
    }
  }
}
