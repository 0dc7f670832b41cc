/**
 * The comparisons the container adapters forward to their underlying
 * std::deque: `==` is element-wise equality and `<` is
 * std::lexicographical_compare over ints.
 */
module SequenceOrder {

  /** std::lexicographical_compare: the first unequal pair decides, else the shorter is less. */
  function LexLess(s: seq<int>, t: seq<int>): bool
  {
    if |t| == 0 then false
    else if |s| == 0 then true
    else if s[0] != t[0] then s[0] < t[0]
    else LexLess(s[1..], t[1..])
  }

  /** An independent description: s is a proper prefix of t, or they first differ where s is smaller. */
  ghost predicate LexLessByIndex(s: seq<int>, t: seq<int>)
  {
    (|s| < |t| && s == t[..|s|]) ||
    exists k :: 0 <= k < |s| && k < |t| && s[..k] == t[..k] && s[k] < t[k]
  }

  /** With different first elements, the first element decides. */
  lemma ByIndexHead(s: seq<int>, t: seq<int>)
    requires |s| > 0 && |t| > 0 && s[0] != t[0]
    ensures LexLessByIndex(s, t) <==> s[0] < t[0]
  {
    if s[0] < t[0] {
      assert s[..0] == t[..0];
    }
    if |s| < |t| {
      assert t[..|s|][0] == t[0];
    }
    forall k | 0 < k < |s| && k < |t| ensures s[..k] != t[..k] {
      assert s[..k][0] == s[0] && t[..k][0] == t[0];
    }
  }

  /** With equal first elements, the comparison moves on to the tails. */
  lemma ByIndexTail(s: seq<int>, t: seq<int>)
    requires |s| > 0 && |t| > 0 && s[0] == t[0]
    ensures LexLessByIndex(s, t) <==> LexLessByIndex(s[1..], t[1..])
  {
    var s', t' := s[1..], t[1..];
    if |s'| < |t'| && s' == t'[..|s'|] {
      assert s == [s[0]] + s' && t[..|s|] == [t[0]] + t'[..|s'|];
    }
    if |s| < |t| && s == t[..|s|] {
      assert s' == t'[..|s'|];
    }
    forall k | 0 <= k < |s'| && k < |t'| && s'[..k] == t'[..k] && s'[k] < t'[k]
      ensures LexLessByIndex(s, t)
    {
      assert s[..k + 1] == [s[0]] + s'[..k] && t[..k + 1] == [t[0]] + t'[..k];
    }
    forall k | 0 <= k < |s| && k < |t| && s[..k] == t[..k] && s[k] < t[k]
      ensures LexLessByIndex(s', t')
    {
      assert s'[..k - 1] == s[..k][1..] && t'[..k - 1] == t[..k][1..];
    }
  }

  lemma {:induction false} LexLessMeansByIndex(s: seq<int>, t: seq<int>)
    ensures LexLess(s, t) <==> LexLessByIndex(s, t)
    decreases |s|
  {
    if |t| == 0 {
    } else if |s| == 0 {
      assert s == t[..0];
    } else if s[0] != t[0] {
      ByIndexHead(s, t);
    } else {
      LexLessMeansByIndex(s[1..], t[1..]);
      ByIndexTail(s, t);
    }
  }

  /** No sequence is less than itself. */
  lemma {:induction false} LexLessIrreflexive(s: seq<int>)
    ensures !LexLess(s, s)
    decreases |s|
  {
    if |s| > 0 {
      LexLessIrreflexive(s[1..]);
    }
  }

  /** Exactly one of s < t, s == t and t < s holds. */
  lemma {:induction false} LexLessTrichotomy(s: seq<int>, t: seq<int>)
    ensures LexLess(s, t) || s == t || LexLess(t, s)
    ensures !(LexLess(s, t) && LexLess(t, s))
    ensures s == t ==> !LexLess(s, t)
    decreases |s|
  {
    if |s| > 0 && |t| > 0 && s[0] == t[0] {
      LexLessTrichotomy(s[1..], t[1..]);
      if s[1..] == t[1..] {
        assert s == [s[0]] + s[1..] && t == [t[0]] + t[1..];
      }
    }
    if s == t {
      LexLessIrreflexive(s);
    }
  }

  /** The order is transitive. */
  lemma {:induction false} LexLessTransitive(s: seq<int>, t: seq<int>, u: seq<int>)
    requires LexLess(s, t) && LexLess(t, u)
    ensures LexLess(s, u)
    decreases |s|
  {
    if |s| > 0 && s[0] == t[0] && t[0] == u[0] {
      LexLessTransitive(s[1..], t[1..], u[1..]);
    }
  }
}
