/** Sequence and string helpers shared by the modules of the model. */
module Strings {

  /** `parts` glued together with `sep` between consecutive parts, as JavaScript's `parts.join(sep)`. */
  function JoinWith(parts: seq<string>, sep: string): string
  {
    if |parts| == 0 then []
    else if |parts| == 1 then parts[0]
    else parts[0] + sep + JoinWith(parts[1..], sep)
  }

  /** Splitting off the first character of `p` and putting it back gives `p`, wherever `p` stands. */
  lemma HeadTail(p: string, a: string, b: string)
    requires p != []
    ensures [p[0]] + (p[1..] + a + b) == p + a + b
    ensures a + [p[0]] + p[1..] + b == a + p + b
  {
    assert [p[0]] + p[1..] == p;
  }

  /** Appending `b` then `c` is appending `b + c`. */
  lemma AppendAssoc<T>(a: seq<T>, b: seq<T>, c: seq<T>)
    ensures a + b + c == a + (b + c)
  {
    assert |a + b + c| == |a + (b + c)|;
  }

  /** A prefix one longer is the prefix followed by the next element. */
  lemma TakeOneMore<T>(s: seq<T>, k: nat)
    requires k < |s|
    ensures s[..k + 1] == s[..k] + [s[k]]
  {
    assert |s[..k + 1]| == |s[..k] + [s[k]]|;
  }

  /** In a strictly increasing sequence, no element occurs before its own position. */
  lemma IncreasingNotEarlier(s: seq<nat>, k: nat)
    requires forall m, l :: 0 <= m < l < |s| ==> s[m] < s[l]
    requires k < |s|
    ensures s[k] !in s[..k]
  {
    forall m | 0 <= m < k ensures s[..k][m] != s[k] {
      assert s[m] < s[k];
    }
  }
}
