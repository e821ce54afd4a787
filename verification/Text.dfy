/** String operations in the sense of Go's strings package, and keys joined with a separator. */
module Text {
  import opened GoTypes

  predicate HasPrefix(s: string, p: string) {
    p <= s
  }

  /** `sub` stands in `s` at `k`. */
  predicate At(s: string, sub: string, k: nat) {
    k + |sub| <= |s| && s[k..k + |sub|] == sub
  }

  predicate Contains(s: string, sub: string) {
    exists k :: 0 <= k <= |s| && At(s, sub, k)
  }

  /** `sub` stands somewhere in `s`. */
  ghost predicate StandsIn(s: string, sub: string) {
    exists a: string, b: string :: s == a + sub + b
  }

  lemma ContainsExactly(s: string, sub: string)
    ensures Contains(s, sub) <==> StandsIn(s, sub)
  {
    if k: nat :| 0 <= k <= |s| && At(s, sub, k) {
      assert s == s[..k] + sub + s[k + |sub|..];
    }
    if a: string, b: string :| s == a + sub + b {
      assert s[|a|..|a| + |sub|] == sub;
      assert At(s, sub, |a|);
    }
  }

  predicate Free(s: string, c: char) {
    forall i :: 0 <= i < |s| ==> s[i] != c
  }

  /** strings.Index; None for -1. */
  function Index(s: string, sub: string): (r: Option<nat>)
    ensures r.Some? ==> At(s, sub, r.value)
    ensures r.None? ==> !Contains(s, sub)
  {
    if |s| < |sub| then None
    else if s[..|sub|] == sub then Some(0)
    else
      var r := Index(s[1..], sub);
      if r.None? then
        NotInTail(s, sub);
        None
      else
        assert s[1..][r.value..r.value + |sub|] == s[r.value + 1..r.value + 1 + |sub|];
        Some(r.value + 1)
  }

  lemma NotInTail(s: string, sub: string)
    requires s != "" && |sub| <= |s| && s[..|sub|] != sub && !Contains(s[1..], sub)
    ensures !Contains(s, sub)
  {
    forall k: nat | k <= |s| ensures !At(s, sub, k) {
      if k > 0 && k + |sub| <= |s| {
        assert s[1..][k - 1..k - 1 + |sub|] == s[k..k + |sub|];
        assert !At(s[1..], sub, k - 1);
      }
    }
  }

  /** Index gives the first place. */
  lemma {:induction false} IndexFirst(s: string, sub: string, k: nat)
    requires Index(s, sub).Some? && k < Index(s, sub).value
    ensures !At(s, sub, k)
  {
    if k > 0 {
      IndexFirst(s[1..], sub, k - 1);
      if k + |sub| <= |s| { assert s[1..][k - 1..k - 1 + |sub|] == s[k..k + |sub|]; }
    }
  }

  lemma IndexIs(s: string, sub: string, k: nat)
    requires At(s, sub, k) && forall j: nat :: j < k ==> !At(s, sub, j)
    ensures Index(s, sub) == Some(k)
  {
    assert Contains(s, sub);
    var r := Index(s, sub);
    if r.Some? && k < r.value {
      IndexFirst(s, sub, k);
    }
  }

  /** strings.Split at a single character. */
  function Split(s: string, c: char): (parts: seq<string>)
    ensures parts != []
  {
    if s == "" then [""]
    else
      var rest := Split(s[1..], c);
      if s[0] == c then [""] + rest else [[s[0]] + rest[0]] + rest[1..]
  }

  lemma {:induction false} SplitFree(s: string, c: char)
    ensures forall i :: 0 <= i < |Split(s, c)| ==> Free(Split(s, c)[i], c)
    ensures Free(s, c) ==> Split(s, c) == [s]
  {
    if s != "" {
      SplitFree(s[1..], c);
      var rest := Split(s[1..], c);
      assert Free(rest[0], c);
      if Free(s, c) {
        assert Free(s[1..], c);
        assert [s[0]] + s[1..] == s;
      }
    }
  }

  lemma {:induction false} SplitJoin(a: string, c: char, b: string)
    requires Free(a, c)
    ensures Split(a + [c] + b, c) == [a] + Split(b, c)
  {
    var s := a + [c] + b;
    if a == "" {
      assert s[1..] == b;
    } else {
      assert s[1..] == a[1..] + [c] + b;
      SplitJoin(a[1..], c, b);
      var rest := Split(s[1..], c);
      assert rest == [a[1..]] + Split(b, c);
      assert [s[0]] + a[1..] == a && rest[1..] == Split(b, c);
    }
  }

  /** A first part without the separator can be read off a joined key. */
  lemma JoinInjective(a: string, a': string, c: char, b: string, b': string)
    requires Free(a, c) && Free(a', c) && a + [c] + b == a' + [c] + b'
    ensures a == a' && b == b'
  {
    var s := a + [c] + b;
    assert s[|a|] == c && s[|a'|] == c;
    forall i | 0 <= i < |a| ensures s[i] != c { assert s[i] == a[i]; }
    forall i | 0 <= i < |a'| ensures s[i] != c { assert s[i] == a'[i]; }
    assert |a| == |a'|;
    assert a == s[..|a|] == a';
    assert b == s[|a| + 1..] == b';
  }

  /** A last part without the separator can be read off too. */
  lemma JoinInjectiveLast(a: string, a': string, c: char, b: string, b': string)
    requires Free(b, c) && Free(b', c) && a + [c] + b == a' + [c] + b'
    ensures a == a' && b == b'
  {
    var s := a + [c] + b;
    var n := |s|;
    assert n == |a| + 1 + |b| == |a'| + 1 + |b'|;
    assert s[|a|] == c && s[|a'|] == c;
    forall i | |a| < i < n ensures s[i] != c { assert s[i] == b[i - |a| - 1]; }
    forall i | |a'| < i < n ensures s[i] != c { assert s[i] == b'[i - |a'| - 1]; }
    assert |a| == |a'|;
    assert a == s[..|a|] == a';
    assert b == s[|a| + 1..] == b';
  }
}
