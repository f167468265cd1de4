/** Small sequence vocabulary shared by the chart, projection and note modules. */
module Seqs {

  datatype Option<+T> = None | Some(value: T) {
    function GetOr(default: T): T {
      match this
      case Some(v) => v
      case None => default
    }
  }

  /** JavaScript truthiness of an optional string: present and non-empty. */
  predicate Truthy(p: Option<string>) {
    p.Some? && p.value != ""
  }

  /** A non-empty sequence is its front followed by its last element. */
  lemma SplitLast<T>(s: seq<T>)
    requires s != []
    ensures s == s[..|s| - 1] + [s[|s| - 1]]
  {
  }

  /** Dropping the last element of a concatenation drops it from the second part. */
  lemma ConcatLast<T>(a: seq<T>, b: seq<T>)
    requires b != []
    ensures (a + b)[..|a + b| - 1] == a + b[..|b| - 1] && (a + b)[|a + b| - 1] == b[|b| - 1]
  {
  }

  /** The prefix one longer ends with the next element. */
  lemma PrefixStep<T>(s: seq<T>, i: nat)
    requires i < |s|
    ensures |s[..i + 1]| == i + 1 && s[..i + 1][..i] == s[..i] && s[..i + 1][i] == s[i]
  {
  }

  /** Updating one element leaves the parts before and after it as they were. */
  lemma UpdateParts<T>(s: seq<T>, i: nat, v: T)
    requires i < |s|
    ensures |s[i := v]| == |s| && s[i := v][i] == v
    ensures s[i := v][..i] == s[..i] && s[i := v][i + 1..] == s[i + 1..]
  {
  }

  /** Growing a middle part by `e` grows the whole by `e`. */
  lemma MultisetGrowMiddle<T>(h: seq<T>, a: seq<T>, m1: seq<T>, m2: seq<T>, b: seq<T>, e: seq<T>)
    requires multiset(m1) == multiset(m2) + multiset(e)
    ensures multiset(h + (a + m1 + b)) == multiset(h + (a + m2 + b)) + multiset(e)
  {
  }

  lemma ConcatAssoc<T>(a: seq<T>, b: seq<T>, c: seq<T>)
    ensures (a + b) + c == a + (b + c)
  {
  }

  /** Updating one element is splicing in a one-element sequence. */
  lemma UpdateIsSplice<T>(s: seq<T>, i: nat, v: T)
    requires i < |s|
    ensures s[i := v] == s[..i] + [v] + s[i + 1..]
  {
  }

  /** `sub` keeps some elements of `s`, in their original order. */
  ghost predicate IsSubsequence<T>(sub: seq<T>, s: seq<T>)
    decreases |s|
  {
    if sub == [] then true
    else if s == [] then false
    else if sub[0] == s[0] then IsSubsequence(sub[1..], s[1..])
    else IsSubsequence(sub, s[1..])
  }

  lemma {:induction false} SubsequenceOfEmpty<T>(s: seq<T>)
    ensures IsSubsequence([], s)
  {
  }

  /** Keeping or dropping the head of `s` preserves the subsequence relation. */
  lemma {:induction false} SubsequenceCons<T>(x: T, sub: seq<T>, s: seq<T>)
    requires IsSubsequence(sub, s)
    ensures IsSubsequence([x] + sub, [x] + s)
    ensures IsSubsequence(sub, [x] + s)
  {
    assert ([x] + sub)[1..] == sub;
    assert ([x] + s)[1..] == s;
    if sub != [] {
      if sub[0] == x {
        SubsequenceDropHead(sub, s);
      }
    }
  }

  lemma {:induction false} SubsequenceDropHead<T>(sub: seq<T>, s: seq<T>)
    requires sub != [] && IsSubsequence(sub, s)
    ensures IsSubsequence(sub[1..], s)
    decreases |s|
  {
    if s != [] {
      if sub[0] == s[0] {
        assert IsSubsequence(sub[1..], s[1..]);
        if sub[1..] != [] {
          if sub[1..][0] != s[0] {
            // sub[1..] skips s[0]
          } else {
            SubsequenceDropHead(sub[1..], s[1..]);
          }
        }
      } else {
        SubsequenceDropHead(sub, s[1..]);
        if sub[1..] != [] && sub[1..][0] == s[0] {
          SubsequenceDropHead(sub[1..], s[1..]);
        }
      }
    }
  }

  /** A subsequence contains only elements of the sequence. */
  lemma {:induction false} SubsequenceMembers<T>(sub: seq<T>, s: seq<T>, x: T)
    requires IsSubsequence(sub, s) && x in sub
    ensures x in s
    decreases |s|
  {
    if sub[0] == s[0] {
      if x != sub[0] {
        SubsequenceMembers(sub[1..], s[1..], x);
      }
    } else {
      SubsequenceMembers(sub, s[1..], x);
    }
  }

  ghost predicate NoDup<T>(s: seq<T>) {
    forall i, j :: 0 <= i < j < |s| ==> s[i] != s[j]
  }


  lemma NoDupConcat<T>(a: seq<T>, b: seq<T>)
    requires NoDup(a + b)
    ensures NoDup(a) && NoDup(b)
    ensures forall x :: x in a ==> x !in b
  {
    forall i, j | 0 <= i < j < |b| ensures b[i] != b[j] {
      assert (a + b)[|a| + i] == b[i] && (a + b)[|a| + j] == b[j];
    }
    forall i, j | 0 <= i < |a| && 0 <= j < |b| ensures a[i] != b[j] {
      assert (a + b)[i] == a[i] && (a + b)[|a| + j] == b[j];
    }
    forall i, j | 0 <= i < j < |a| ensures a[i] != a[j] {
      assert (a + b)[i] == a[i] && (a + b)[j] == a[j];
    }
  }

  /** In a repetition-free sequence every element occurs exactly once. */
  lemma NoDupOccursOnce<T>(s: seq<T>, x: T)
    requires NoDup(s) && x in s
    ensures multiset(s)[x] == 1
  {
    var i :| 0 <= i < |s| && s[i] == x;
    assert s == s[..i] + [x] + s[i + 1..];
    assert x !in s[..i] by {
      forall j | 0 <= j < i ensures s[..i][j] != x { assert s[j] != s[i]; }
    }
    assert x !in s[i + 1..] by {
      forall j | i < j < |s| ensures s[j] != x { assert s[i] != s[j]; }
    }
    calc {
      multiset(s)[x];
      (multiset(s[..i]) + multiset([x]) + multiset(s[i + 1..]))[x];
      1;
    }
  }

  // Multiset algebra used to chain id-accounting equations.

  lemma MultisetCancelRight<T>(a: multiset<T>, b: multiset<T>, c: multiset<T>)
    requires a + c == b + c
    ensures a == b
  {
    forall e ensures a[e] == b[e] {
      assert (a + c)[e] == (b + c)[e];
    }
  }

  lemma MultisetShift<T>(r: multiset<T>, t: multiset<T>, k: multiset<T>, sp: multiset<T>, cs: multiset<T>, x: multiset<T>, mid: multiset<T>)
    requires r == k + sp && t == k + cs && sp + x == cs + mid
    ensures r + x == t + mid
  {
    forall e ensures (r + x)[e] == (t + mid)[e] {
      assert (sp + x)[e] == (cs + mid)[e];
    }
  }

  lemma MultisetCancel<T>(sp: multiset<T>, ci: multiset<T>, cs: multiset<T>, c: multiset<T>, x: multiset<T>, mid: multiset<T>)
    requires sp + ci == cs + c && c + x == ci + mid
    ensures sp + x == cs + mid
  {
    forall e ensures (sp + x)[e] == (cs + mid)[e] {
      assert (sp + ci)[e] == (cs + c)[e];
      assert (c + x)[e] == (ci + mid)[e];
    }
  }

  lemma MultisetRegroup<T>(r: multiset<T>, rest: multiset<T>, sub: multiset<T>, whole: multiset<T>, kids: multiset<T>, top: multiset<T>)
    requires r == rest + kids && rest + sub == whole && sub == top + kids
    ensures r + top == whole
  {
    forall e ensures (r + top)[e] == whole[e] {
      assert (rest + sub)[e] == whole[e];
    }
  }

  /** Two equal elements at distinct indices make the element occur at least twice. */
  lemma RepeatCounts<T>(s: seq<T>, i: nat, j: nat)
    requires i < j < |s| && s[i] == s[j]
    ensures multiset(s)[s[i]] >= 2
  {
    assert s == s[..j] + s[j..];
    assert s[i] == s[..j][i];
    assert s[j] == s[j..][0];
    assert multiset(s) == multiset(s[..j]) + multiset(s[j..]);
  }

  /** Fewer occurrences of everything keeps a sequence free of repetitions. */
  lemma NoDupSubMultiset<T>(s: seq<T>, sub: seq<T>)
    requires NoDup(s) && multiset(sub) <= multiset(s)
    ensures NoDup(sub)
  {
    forall i, j | 0 <= i < j < |sub| ensures sub[i] != sub[j] {
      if sub[i] == sub[j] {
        RepeatCounts(sub, i, j);
        NoDupOccursOnce(s, sub[i]);
        assert false;
      }
    }
  }

  lemma MultisetSumBounds<T>(a: multiset<T>, b: multiset<T>, c: multiset<T>)
    requires a + b == c
    ensures a <= c
  {
    forall e ensures a[e] <= c[e] {
      assert (a + b)[e] == c[e];
    }
  }

  /**
   * A repetition-free sequence split, as multisets, into `rest` and `part`: `rest` is
   * repetition-free, keeps everything outside `part` and nothing of it.
   */
  lemma SplitCounts<T>(whole: seq<T>, part: seq<T>, rest: seq<T>)
    requires NoDup(whole) && multiset(rest) + multiset(part) == multiset(whole)
    ensures NoDup(rest)
    ensures forall z :: z in whole && z !in part ==> z in rest
    ensures forall z :: z in part ==> z !in rest
  {
    MultisetSumBounds(multiset(rest), multiset(part), multiset(whole));
    NoDupSubMultiset(whole, rest);
    forall z | z in whole && z !in part ensures z in rest {
      assert (multiset(rest) + multiset(part))[z] == multiset(whole)[z];
    }
    forall z | z in part ensures z !in rest {
      assert (multiset(rest) + multiset(part))[z] == multiset(whole)[z];
      NoDupOccursOnce(whole, z);
    }
  }
}
