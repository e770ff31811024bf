/** What several parts of the model share. */
module Common {

  /** How deep B-trees and tables of ids are followed: PST_MAX_BTREE_DEPTH in src/libpst.c. */
  const MAX_DEPTH := 64

  datatype Option<T> = None | Some(value: T)

  /** A file open for writing. */
  class FileStream<T> {
    var written: seq<T>

    constructor ()
      ensures written == []
    {
      written := [];
    }

    method Write(s: seq<T>)
      modifies this
      ensures written == old(written) + s
    {
      written := written + s;
    }
  }

  lemma {:induction false} Associates<T>(a: seq<T>, b: seq<T>, c: seq<T>)
    ensures a + b + c == a + (b + c)
  {
  }

  lemma {:induction false} WithoutFirst<T>(a: seq<T>, b: seq<T>)
    requires a != []
    ensures (a + b)[0] == a[0] && (a + b)[1..] == a[1..] + b
  {
  }

  /** What is left of b when some elements are dropped. */
  predicate Subsequence<T(==)>(a: seq<T>, b: seq<T>)
    decreases |b|
  {
    || a == []
    || (b != [] &&
        (|| (a[|a| - 1] == b[|b| - 1] && Subsequence(a[..|a| - 1], b[..|b| - 1]))
         || Subsequence(a, b[..|b| - 1])))
  }

  lemma {:induction false} SubsequenceAppend<T>(a: seq<T>, b: seq<T>, c: seq<T>)
    requires Subsequence(a, b)
    ensures Subsequence(a, b + c)
    ensures Subsequence(a + c, b + c)
    decreases |c|
  {
    if c == [] {
      assert a + c == a && b + c == b;
    } else {
      var c', x := c[..|c| - 1], c[|c| - 1];
      SubsequenceAppend(a, b, c');
      assert c == c' + [x];
      assert (b + c)[..|b + c| - 1] == b + c' && (a + c)[..|a + c| - 1] == a + c';
    }
  }

  lemma {:induction false} SubsequencePrepend<T>(x: T, a: seq<T>, b: seq<T>)
    requires Subsequence(a, b)
    ensures Subsequence(a, [x] + b)
    ensures Subsequence([x] + a, [x] + b)
    decreases |b|
  {
    if a == [] {
      assert [x] + a == [x];
      OneOf(x, b);
    } else {
      var n, m := |a| - 1, |b| - 1;
      assert ([x] + b)[..m + 1] == [x] + b[..m] && ([x] + a)[..n + 1] == [x] + a[..n];
      if a[n] == b[m] && Subsequence(a[..n], b[..m]) {
        SubsequencePrepend(x, a[..n], b[..m]);
      } else {
        SubsequencePrepend(x, a, b[..m]);
      }
    }
  }

  lemma {:induction false} OneOf<T>(x: T, b: seq<T>)
    ensures Subsequence([x], [x] + b)
    decreases |b|
  {
    if b == [] {
      assert [x] + b == [x] && [x][..0] == [];
    } else {
      OneOf(x, b[..|b| - 1]);
      assert ([x] + b)[..|b|] == [x] + b[..|b| - 1];
    }
  }

  lemma {:induction false} SubsequenceTransitive<T>(a: seq<T>, b: seq<T>, c: seq<T>)
    requires Subsequence(a, b) && Subsequence(b, c)
    ensures Subsequence(a, c)
    decreases |c|
  {
    if a != [] {
      var n, m, l := |a| - 1, |b| - 1, |c| - 1;
      if b[m] == c[l] && Subsequence(b[..m], c[..l]) {
        if a[n] == b[m] && Subsequence(a[..n], b[..m]) {
          SubsequenceTransitive(a[..n], b[..m], c[..l]);
        } else {
          SubsequenceTransitive(a, b[..m], c[..l]);
        }
      } else {
        SubsequenceTransitive(a, b, c[..l]);
      }
    }
  }

  /** The buffer holds s as a C string. */
  predicate HoldsString(buffer: seq<char>, s: string) {
    |s| < |buffer| && buffer[..|s|] == s && buffer[|s|] == '\0' && '\0' !in s
  }

  /** C's strlen and the characters it counts. */
  method StringOf(buffer: array<char>, ghost s: string) returns (t: string)
    requires HoldsString(buffer[..], s)
    ensures t == s
  {
    var n := 0;
    while buffer[n] != '\0'
      invariant 0 <= n <= |s|
      invariant forall k :: 0 <= k < |s| ==> buffer[k] == s[k]
      decreases |s| - n
    {
      n := n + 1;
    }
    t := buffer[..n];
  }
}
