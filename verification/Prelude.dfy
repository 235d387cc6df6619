// Shared vocabulary: options, results, and the split/join pair that the path,
// host and text modules are built on.
module Prelude {

  datatype Option<+T> = None | Some(value: T)

  datatype Result<+T, +E> = Ok(value: T) | Err(error: E)

  /** Splits `s` at every occurrence of `sep`, keeping empty pieces. */
  function Split<T(==)>(s: seq<T>, sep: T): (parts: seq<seq<T>>)
    ensures |parts| > 0
  {
    if s == [] then [[]]
    else
      var rest := Split(s[1..], sep);
      if s[0] == sep then [[]] + rest else [[s[0]] + rest[0]] + rest[1..]
  }

  /** Concatenates `parts`, putting `sep` between neighbours. */
  function Join<T>(parts: seq<seq<T>>, sep: T): seq<T>
    requires |parts| > 0
  {
    if |parts| == 1 then parts[0] else parts[0] + [sep] + Join(parts[1..], sep)
  }

  lemma {:induction false} JoinSplit<T>(s: seq<T>, sep: T)
    ensures Join(Split(s, sep), sep) == s
  {
    if s == [] {
    } else {
      JoinSplit(s[1..], sep);
      var rest := Split(s[1..], sep);
      if s[0] == sep {
        assert ([[]] + rest)[1..] == rest;
        assert s == [sep] + s[1..];
      } else {
        assert Split(s, sep)[1..] == rest[1..];
        assert s == [s[0]] + s[1..];
      }
    }
  }

  /** A piece without the separator comes off the front whole. */
  lemma {:induction false} SplitPiece<T>(piece: seq<T>, tail: seq<T>, sep: T)
    requires sep !in piece
    ensures Split(piece, sep) == [piece]
    ensures Split(piece + [sep] + tail, sep) == [piece] + Split(tail, sep)
  {
    var whole := piece + [sep] + tail;
    if piece == [] {
      assert whole[1..] == tail;
    } else {
      SplitPiece(piece[1..], tail, sep);
      assert whole[1..] == piece[1..] + [sep] + tail;
      assert piece == [piece[0]] + piece[1..];
      var rest := Split(whole[1..], sep);
      assert rest[1..] == Split(tail, sep);
    }
  }

  lemma {:induction false} SplitJoin<T>(parts: seq<seq<T>>, sep: T)
    requires |parts| > 0 && forall p | p in parts :: sep !in p
    ensures Split(Join(parts, sep), sep) == parts
  {
    SplitPiece(parts[0], [], sep);
    if |parts| == 1 {
    } else {
      SplitJoin(parts[1..], sep);
      SplitPiece(parts[0], Join(parts[1..], sep), sep);
    }
  }

  lemma {:induction false} SplitPieces<T>(s: seq<T>, sep: T)
    ensures forall p | p in Split(s, sep) :: sep !in p
  {
    if s == [] {
    } else {
      SplitPieces(s[1..], sep);
      var rest := Split(s[1..], sep);
      assert rest[0] in rest;
      assert forall p | p in rest[1..] :: p in rest;
    }
  }

  /** Splitting distributes over a separator, whatever the two sides hold. */
  lemma {:induction false} SplitAppend<T>(a: seq<T>, b: seq<T>, sep: T)
    ensures Split(a + [sep] + b, sep) == Split(a, sep) + Split(b, sep)
  {
    var whole := a + [sep] + b;
    if a == [] {
      assert whole[1..] == b;
    } else {
      SplitAppend(a[1..], b, sep);
      assert whole[1..] == a[1..] + [sep] + b && whole[0] == a[0];
      PrependPiece(a[0], Split(a[1..], sep), Split(b, sep), sep);
    }
  }

  lemma PrependPiece<T>(x: T, ra: seq<seq<T>>, rb: seq<seq<T>>, sep: T)
    requires |ra| > 0
    ensures [[]] + (ra + rb) == ([[]] + ra) + rb
    ensures [[x] + (ra + rb)[0]] + (ra + rb)[1..] == ([[x] + ra[0]] + ra[1..]) + rb
  {
  }

  predicate SuffixOf<T(==)>(tail: seq<T>, s: seq<T>) {
    |tail| <= |s| && s[|s| - |tail|..] == tail
  }

  lemma Assoc<T>(a: seq<T>, b: seq<T>, c: seq<T>)
    ensures a + b + c == a + (b + c)
  {
  }

  lemma TakeDrop<T>(s: seq<T>, k: nat)
    requires k <= |s|
    ensures s == s[..k] + s[k..]
  {
  }

  lemma {:induction false} JoinAppend<T>(a: seq<seq<T>>, b: seq<seq<T>>, sep: T)
    requires |a| > 0 && |b| > 0
    ensures Join(a + b, sep) == Join(a, sep) + [sep] + Join(b, sep)
  {
    if |a| == 1 {
      assert (a + b)[1..] == b;
    } else {
      JoinAppend(a[1..], b, sep);
      assert (a + b)[1..] == a[1..] + b;
    }
  }

  function LowerChar(c: char): char {
    if 'A' <= c <= 'Z' then c + 32 as char else c
  }

  /** ASCII lower-casing, as case-insensitive comparison uses it. */
  function Lower(s: string): string {
    seq(|s|, i requires 0 <= i < |s| => LowerChar(s[i]))
  }

  /** Only the 26 capital letters change, each by 32 code points. */
  lemma LowerCharIff(c: char)
    ensures LowerChar(c) as int == if 65 <= c as int <= 90 then c as int + 32 else c as int
  {
  }

  function TrimLeft<T>(s: seq<T>, p: T -> bool): seq<T> {
    if s == [] || !p(s[0]) then s else TrimLeft(s[1..], p)
  }

  function TrimRight<T>(s: seq<T>, p: T -> bool): seq<T> {
    if s == [] || !p(s[|s| - 1]) then s else TrimRight(s[..|s| - 1], p)
  }

  /** Drops the leading and trailing elements satisfying `p`. */
  function Trim<T>(s: seq<T>, p: T -> bool): seq<T> {
    TrimRight(TrimLeft(s, p), p)
  }

  ghost predicate AllOf<T>(s: seq<T>, p: T -> bool) {
    forall i | 0 <= i < |s| :: p(s[i])
  }

  predicate Trimmed<T>(s: seq<T>, p: T -> bool) {
    s == [] || (!p(s[0]) && !p(s[|s| - 1]))
  }

  lemma {:induction false} TrimLeftOf<T>(pre: seq<T>, m: seq<T>, p: T -> bool)
    requires AllOf(pre, p)
    ensures TrimLeft(pre + m, p) == TrimLeft(m, p)
  {
    if pre == [] {
      assert pre + m == m;
    } else {
      assert (pre + m)[1..] == pre[1..] + m;
      TrimLeftOf(pre[1..], m, p);
    }
  }

  lemma {:induction false} TrimRightOf<T>(m: seq<T>, post: seq<T>, p: T -> bool)
    requires AllOf(post, p)
    ensures TrimRight(m + post, p) == TrimRight(m, p)
  {
    if post == [] {
      assert m + post == m;
    } else {
      var n := |post| - 1;
      assert (m + post)[..|m + post| - 1] == m + post[..n];
      TrimRightOf(m, post[..n], p);
    }
  }

  /** Trimming undoes any padding, and what is already trimmed stays. */
  lemma TrimOf<T>(pre: seq<T>, m: seq<T>, post: seq<T>, p: T -> bool)
    requires AllOf(pre, p) && AllOf(post, p) && Trimmed(m, p)
    ensures Trim(pre + m + post, p) == m
  {
    if m == [] {
      assert pre + m + post == (pre + post) + [];
      TrimLeftOf(pre + post, [], p);
    } else {
      assert pre + m + post == pre + (m + post);
      TrimLeftOf(pre, m + post, p);
      TrimRightOf(m, post, p);
    }
  }

  lemma {:induction false} TrimLeftParts<T>(s: seq<T>, p: T -> bool) returns (pre: seq<T>)
    ensures s == pre + TrimLeft(s, p) && AllOf(pre, p)
    ensures TrimLeft(s, p) != [] ==> !p(TrimLeft(s, p)[0])
  {
    if s == [] || !p(s[0]) {
      pre := [];
    } else {
      pre := TrimLeftParts(s[1..], p);
      pre := [s[0]] + pre;
    }
  }

  lemma {:induction false} TrimRightParts<T>(s: seq<T>, p: T -> bool) returns (post: seq<T>)
    ensures s == TrimRight(s, p) + post && AllOf(post, p)
    ensures TrimRight(s, p) != [] ==> !p(TrimRight(s, p)[|TrimRight(s, p)| - 1])
  {
    if s == [] || !p(s[|s| - 1]) {
      post := [];
    } else {
      post := TrimRightParts(s[..|s| - 1], p);
      post := post + [s[|s| - 1]];
    }
  }

  lemma TrimParts<T>(s: seq<T>, p: T -> bool) returns (pre: seq<T>, post: seq<T>)
    ensures s == pre + Trim(s, p) + post
    ensures AllOf(pre, p) && AllOf(post, p) && Trimmed(Trim(s, p), p)
  {
    pre := TrimLeftParts(s, p);
    post := TrimRightParts(TrimLeft(s, p), p);
    assert Trim(s, p) != [] ==> Trim(s, p)[0] == TrimLeft(s, p)[0];
  }

  /** Extensional equality of sets, for goals where the solver needs the nudge. */
  lemma SetEq<T(!new)>(a: set<T>, b: set<T>)
    requires forall x :: x in a <==> x in b
    ensures a == b
  {
  }
}
