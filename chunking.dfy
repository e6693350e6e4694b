/**
 * Splitting a list into consecutive columns of a fixed height, as
 * `[xs[i:i + n] for i in range(0, len(xs), n)]` does.
 */
module Chunking {

  function Chunks<T>(s: seq<T>, n: nat): seq<seq<T>>
    requires n > 0
    decreases |s|
  {
    if s == [] then []
    else if |s| <= n then [s]
    else [s[..n]] + Chunks(s[n..], n)
  }

  function Flatten<T>(cs: seq<seq<T>>): seq<T>
  {
    if cs == [] then [] else cs[0] + Flatten(cs[1..])
  }

  /** Reading the columns one after the other gives back the list. */
  lemma {:induction false} FlattenChunks<T>(s: seq<T>, n: nat)
    requires n > 0
    ensures Flatten(Chunks(s, n)) == s
    decreases |s|
  {
    if |s| > n {
      FlattenChunks(s[n..], n);
      assert s == s[..n] + s[n..];
    }
  }

  /**
   * Every column is non-empty and holds at most `n` items; every column but
   * the last holds exactly `n`; there are ceil(|s| / n) columns.
   */
  lemma {:induction false} ChunkSizes<T>(s: seq<T>, n: nat)
    requires n > 0
    ensures forall i :: 0 <= i < |Chunks(s, n)| ==> 0 < |Chunks(s, n)[i]| <= n
    ensures forall i :: 0 <= i < |Chunks(s, n)| - 1 ==> |Chunks(s, n)[i]| == n
    decreases |s|
  {
    if |s| > n {
      var cs, tail := Chunks(s, n), Chunks(s[n..], n);
      ChunkSizes(s[n..], n);
      assert cs == [s[..n]] + tail;
      forall i | 0 <= i < |cs| ensures 0 < |cs[i]| <= n && (i < |cs| - 1 ==> |cs[i]| == n) {
        if i > 0 {
          assert cs[i] == tail[i - 1];
        }
      }
    }
  }

  /** There are ceil(|s| / n) columns: the fewest columns of height `n` that hold `s`. */
  lemma {:induction false} ChunkCount<T>(s: seq<T>, n: nat)
    requires n > 0
    ensures var c := |Chunks(s, n)|;
      (c == 0 <==> s == []) && (c > 0 ==> (c - 1) * n < |s| <= c * n)
    decreases |s|
  {
    if |s| > n {
      ChunkCount(s[n..], n);
      var c := |Chunks(s[n..], n)|;
      assert (c + 1 - 1) * n == (c - 1) * n + n;
      assert (c + 1) * n == c * n + n;
    }
  }

  /** Column `k` is the slice of `s` that starts at `k * n`, as in the comprehension. */
  lemma {:induction false} ChunkAt<T>(s: seq<T>, n: nat, k: nat)
    requires n > 0 && k < |Chunks(s, n)|
    ensures k * n < |s|
    ensures Chunks(s, n)[k] == s[k * n..if k * n + n <= |s| then k * n + n else |s|]
    decreases |s|
  {
    if k > 0 {
      var t := s[n..];
      assert Chunks(s, n) == [s[..n]] + Chunks(t, n);
      ChunkAt(t, n, k - 1);
      var j := (k - 1) * n;
      assert j + n == k * n;
      var e := if j + n <= |t| then j + n else |t|;
      assert |t| == |s| - n && e + n <= |s|;
      assert Chunks(s, n)[k] == t[j..e];
      assert t[j..e] == s[j + n..e + n];
    }
  }
}
