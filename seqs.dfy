/**
 * Searches over sequences, shared by the byte-level parsers (Foundation's
 * `Data.range(of:)`) and the text-level ones (`String.range(of:)`,
 * `components(separatedBy:)`, `hasPrefix`).
 */
module Seqs {
  import opened Wrappers

  /** `p` occurs in `s` at position `i`. */
  ghost predicate OccursAt<T>(s: seq<T>, p: seq<T>, i: int) {
    0 <= i && i + |p| <= |s| && s[i..i + |p|] == p
  }

  predicate HasSuffix<T(==)>(s: seq<T>, p: seq<T>) {
    |p| <= |s| && s[|s| - |p|..] == p
  }

  predicate HasPrefix<T(==)>(s: seq<T>, p: seq<T>) {
    |p| <= |s| && s[..|p|] == p
  }

  /** The value paired with the first occurrence of `key` in `keys`, or `default`: a `switch` over literal cases. */
  function Lookup<K(==), V>(keys: seq<K>, values: seq<V>, key: K, default: V): (r: V)
    requires |keys| == |values|
    ensures key !in keys ==> r == default
    ensures key in keys ==> exists i :: 0 <= i < |keys| && keys[i] == key && r == values[i]
  {
    if |keys| == 0 then default
    else if keys[0] == key then values[0]
    else
      var r := Lookup(keys[1..], values[1..], key, default);
      assert forall i :: 1 <= i < |keys| ==> keys[i] == keys[1..][i - 1] && values[i] == values[1..][i - 1];
      r
  }

  /** The first occurrence of `key` decides the lookup. */
  lemma {:induction false} LookupAt<K, V>(keys: seq<K>, values: seq<V>, key: K, default: V, i: nat)
    requires |keys| == |values| && i < |keys| && keys[i] == key && key !in keys[..i]
    ensures Lookup(keys, values, key, default) == values[i]
  {
    if i > 0 {
      assert keys[0] == keys[..i][0];
      assert keys[1..][..i - 1] == keys[..i][1..];
      LookupAt(keys[1..], values[1..], key, default, i - 1);
    }
  }

  /** First occurrence of a non-empty `p` in `s` at or after `from`. */
  function IndexOfFrom<T(==)>(s: seq<T>, p: seq<T>, from: nat): (r: Option<nat>)
    requires |p| > 0
    ensures r.Some? ==> from <= r.value && OccursAt(s, p, r.value)
    decreases |s| - from
  {
    if from + |p| > |s| then None
    else if s[from..from + |p|] == p then Some(from)
    else IndexOfFrom(s, p, from + 1)
  }

  /** `IndexOfFrom` finds the first occurrence, and misses only when there is none. */
  lemma {:induction false} IndexOfFromFirst<T>(s: seq<T>, p: seq<T>, from: nat)
    requires |p| > 0
    ensures IndexOfFrom(s, p, from).Some? ==>
              forall j :: from <= j < IndexOfFrom(s, p, from).value ==> !OccursAt(s, p, j)
    ensures IndexOfFrom(s, p, from).None? ==> forall j :: from <= j ==> !OccursAt(s, p, j)
    decreases |s| - from
  {
    if from + |p| <= |s| && s[from..from + |p|] != p {
      IndexOfFromFirst(s, p, from + 1);
    }
  }

  /**
   * First occurrence of `p` in `s`. An empty pattern is never found: Foundation's
   * `range(of:)` returns nil for an empty needle.
   */
  function IndexOf<T(==)>(s: seq<T>, p: seq<T>): (r: Option<nat>)
    ensures r.Some? ==> |p| > 0 && OccursAt(s, p, r.value)
  {
    if |p| == 0 then None else IndexOfFrom(s, p, 0)
  }

  /** `IndexOf` finds the first occurrence, and misses only when there is none. */
  lemma IndexOfFirst<T>(s: seq<T>, p: seq<T>)
    ensures IndexOf(s, p).Some? ==> forall j :: 0 <= j < IndexOf(s, p).value ==> !OccursAt(s, p, j)
    ensures IndexOf(s, p).None? && |p| > 0 ==> forall j :: 0 <= j ==> !OccursAt(s, p, j)
  {
    if |p| > 0 {
      IndexOfFromFirst(s, p, 0);
    }
  }

  /** An occurrence that is the earliest one is what `IndexOf` returns. */
  lemma IndexOfIs<T>(s: seq<T>, p: seq<T>, i: nat)
    requires |p| > 0 && OccursAt(s, p, i)
    requires forall j :: 0 <= j < i ==> !OccursAt(s, p, j)
    ensures IndexOf(s, p) == Some(i)
  {
    IndexOfFirst(s, p);
  }

  predicate Contains<T(==)>(s: seq<T>, p: seq<T>) {
    IndexOf(s, p).Some?
  }

  /** First index holding `x`. */
  function FirstIndexOf<T(==)>(s: seq<T>, x: T): (r: Option<nat>)
    ensures r.Some? ==> r.value < |s| && s[r.value] == x
    ensures r.Some? ==> forall j :: 0 <= j < r.value ==> s[j] != x
    ensures r.None? ==> x !in s
  {
    if |s| == 0 then None
    else if s[0] == x then Some(0)
    else match FirstIndexOf(s[1..], x)
      case None => None
      case Some(k) => Some(k + 1)
  }

  /** Last index holding `x`. */
  function LastIndexOf<T(==)>(s: seq<T>, x: T): (r: Option<nat>)
    ensures r.Some? ==> r.value < |s| && s[r.value] == x
    ensures r.Some? ==> forall j :: r.value < j < |s| ==> s[j] != x
    ensures r.None? ==> x !in s
  {
    if |s| == 0 then None
    else if s[|s| - 1] == x then Some(|s| - 1)
    else LastIndexOf(s[..|s| - 1], x)
  }

  /** Nothing after the last `x` is an `x`, and a slice has only what the sequence has. */
  lemma AfterLast<T>(s: seq<T>, x: T, y: T, i: nat)
    requires LastIndexOf(s, x) == Some(i) && y !in s
    ensures x !in s[i + 1..] && y !in s[i + 1..]
  {
    var e := s[i + 1..];
    forall k | 0 <= k < |e|
      ensures e[k] != x && e[k] != y
    {
      assert e[k] == s[i + 1 + k];
    }
  }

  /** The last position holding `x` is what `LastIndexOf` returns. */
  lemma {:induction false} LastIndexOfIs<T>(s: seq<T>, x: T, i: nat)
    requires i < |s| && s[i] == x
    requires forall k :: i < k < |s| ==> s[k] != x
    ensures LastIndexOf(s, x) == Some(i)
  {
    if i < |s| - 1 {
      LastIndexOfIs(s[..|s| - 1], x, i);
    }
  }

  /** Appending elements other than `x` does not move the last `x`. */
  lemma {:induction false} LastIndexOfAppend<T>(a: seq<T>, b: seq<T>, x: T)
    requires x !in b
    ensures LastIndexOf(a + b, x) == LastIndexOf(a, x)
  {
    if |b| > 0 {
      var ab := a + b;
      assert ab[|ab| - 1] == b[|b| - 1];
      assert ab[..|ab| - 1] == a + b[..|b| - 1];
      LastIndexOfAppend(a, b[..|b| - 1], x);
    } else {
      assert a + b == a;
    }
  }

  /** `firstIndex(where:)`: the first position whose element satisfies `p`. */
  function FirstWhere<T>(s: seq<T>, p: T -> bool): (r: Option<nat>)
    ensures r.Some? ==> r.value < |s| && p(s[r.value])
    ensures r.Some? ==> forall j :: 0 <= j < r.value ==> !p(s[j])
    ensures r.None? ==> forall j :: 0 <= j < |s| ==> !p(s[j])
  {
    if |s| == 0 then None
    else if p(s[0]) then Some(0)
    else match FirstWhere(s[1..], p)
      case None => None
      case Some(k) => Some(k + 1)
  }

  /** A single-element pattern is contained exactly when the element occurs. */
  lemma ContainsSingle<T>(s: seq<T>, x: T)
    ensures Contains(s, [x]) <==> x in s
  {
    IndexOfFirst(s, [x]);
    if x in s {
      var j :| 0 <= j < |s| && s[j] == x;
      assert s[j..j + 1] == [x];
      assert OccursAt(s, [x], j);
    }
    if Contains(s, [x]) {
      var j := IndexOf(s, [x]).value;
      assert s[j..j + 1] == [x];
      assert s[j] == x;
    }
  }

  /**
   * `components(separatedBy: sep)`: the pieces between the occurrences of a
   * non-empty separator, found left to right; always at least one piece.
   */
  function Split<T(==)>(s: seq<T>, sep: seq<T>): (r: seq<seq<T>>)
    requires |sep| > 0
    ensures |r| >= 1
    decreases |s|
  {
    match IndexOf(s, sep)
    case None => [s]
    case Some(i) => [s[..i]] + Split(s[i + |sep|..], sep)
  }

  /** A head without the separator's first element is the first piece. */
  lemma SplitCons<T>(a: seq<T>, sep: seq<T>, b: seq<T>)
    requires |sep| > 0 && sep[0] !in a
    ensures Split(a + sep + b, sep) == [a] + Split(b, sep)
  {
    var s := a + sep + b;
    assert OccursAt(s, sep, |a|) by {
      assert s[|a|..|a| + |sep|] == sep;
    }
    forall j | 0 <= j < |a|
      ensures !OccursAt(s, sep, j)
    {
      assert s[j] == a[j];
    }
    IndexOfIs(s, sep, |a|);
    assert s[..|a|] == a;
    assert s[|a| + |sep|..] == b;
  }

  /** A text without the separator's first element is a single piece. */
  lemma SplitSingle<T>(a: seq<T>, sep: seq<T>)
    requires |sep| > 0 && sep[0] !in a
    ensures Split(a, sep) == [a]
  {
  }

  /** The pieces joined back with the separator. */
  function Join<T>(pieces: seq<seq<T>>, sep: seq<T>): seq<T>
    requires |pieces| >= 1
  {
    if |pieces| == 1 then pieces[0] else pieces[0] + sep + Join(pieces[1..], sep)
  }

  /** Splitting and joining again gives back the text. */
  lemma {:induction false} JoinSplit<T>(s: seq<T>, sep: seq<T>)
    requires |sep| > 0
    ensures Join(Split(s, sep), sep) == s
    decreases |s|
  {
    var r := IndexOf(s, sep);
    if r.Some? {
      var i := r.value;
      var head := s[..i];
      var rest := s[i + |sep|..];
      SplitAt(s, sep, i);
      JoinSplit(rest, sep);
      JoinCons(head, Split(rest, sep), sep);
      Reassemble(s, sep, i);
    }
  }

  lemma SplitAt<T>(s: seq<T>, sep: seq<T>, i: nat)
    requires |sep| > 0 && IndexOf(s, sep) == Some(i)
    ensures Split(s, sep) == [s[..i]] + Split(s[i + |sep|..], sep)
  {
  }

  lemma Reassemble<T>(s: seq<T>, p: seq<T>, i: nat)
    requires OccursAt(s, p, i)
    ensures s == s[..i] + p + s[i + |p|..]
  {
    assert s == s[..i] + s[i..i + |p|] + s[i + |p|..];
  }

  lemma JoinCons<T>(head: seq<T>, tail: seq<seq<T>>, sep: seq<T>)
    requires |tail| >= 1
    ensures Join([head] + tail, sep) == head + sep + Join(tail, sep)
  {
    assert ([head] + tail)[1..] == tail;
  }

  /** Joining pieces that do not hold the separator's first element and splitting again gives them back. */
  lemma {:induction false} SplitJoin<T>(pieces: seq<seq<T>>, sep: seq<T>)
    requires |pieces| >= 1 && |sep| > 0
    requires forall k :: 0 <= k < |pieces| ==> sep[0] !in pieces[k]
    ensures Split(Join(pieces, sep), sep) == pieces
  {
    if |pieces| == 1 {
      SplitSingle(pieces[0], sep);
    } else {
      SplitJoin(pieces[1..], sep);
      SplitCons(pieces[0], sep, Join(pieces[1..], sep));
    }
  }

  /** Splitting pieces joined by the separator and followed by more text gives the pieces, then the split of the rest. */
  lemma {:induction false} SplitJoinThen<T>(pieces: seq<seq<T>>, sep: seq<T>, rest: seq<T>)
    requires |pieces| >= 1 && |sep| > 0
    requires forall k :: 0 <= k < |pieces| ==> sep[0] !in pieces[k]
    ensures Split(Join(pieces, sep) + sep + rest, sep) == pieces + Split(rest, sep)
  {
    if |pieces| == 1 {
      assert pieces == [pieces[0]];
      SplitJoinThenOne(pieces[0], sep, rest);
    } else {
      SplitJoinThen(pieces[1..], sep, rest);
      SplitJoinThenStep(pieces[0], pieces[1..], sep, rest);
      assert [pieces[0]] + pieces[1..] == pieces;
    }
  }

  /**
   * Pieces each ended by the separator, an empty piece, then a body: the
   * split gives the pieces back, then the empty piece, then the body's pieces.
   */
  lemma SplitFramed<T>(head: seq<seq<T>>, sep: seq<T>, body: seq<T>)
    requires |head| >= 1 && |sep| > 0
    requires forall k :: 0 <= k < |head| ==> sep[0] !in head[k]
    ensures var lines := Split(Join(head, sep) + sep + (sep + body), sep);
            && |lines| > |head| + 1 && lines[..|head|] == head && lines[|head|] == []
            && Join(lines[|head| + 1..], sep) == body
  {
    var lines := Split(Join(head, sep) + sep + (sep + body), sep);
    SplitJoinThen(head, sep, sep + body);
    assert sep + body == [] + sep + body;
    SplitCons([], sep, body);
    var tail := Split(body, sep);
    assert lines == head + ([[]] + tail);
    assert lines[..|head|] == head;
    assert lines[|head| + 1..] == tail;
    JoinSplit(body, sep);
  }

  lemma SplitJoinThenStep<T>(head: seq<T>, tail: seq<seq<T>>, sep: seq<T>, rest: seq<T>)
    requires |tail| >= 1 && |sep| > 0 && sep[0] !in head
    requires Split(Join(tail, sep) + sep + rest, sep) == tail + Split(rest, sep)
    ensures Split(Join([head] + tail, sep) + sep + rest, sep) == [head] + tail + Split(rest, sep)
  {
    var t := Join(tail, sep);
    JoinCons(head, tail, sep);
    Regroup(head, sep, t, rest);
    SplitCons(head, sep, t + sep + rest);
  }

  lemma SplitJoinThenOne<T>(piece: seq<T>, sep: seq<T>, rest: seq<T>)
    requires |sep| > 0 && sep[0] !in piece
    ensures Split(Join([piece], sep) + sep + rest, sep) == [piece] + Split(rest, sep)
  {
    SplitCons(piece, sep, rest);
  }

  lemma Regroup<T>(a: seq<T>, sep: seq<T>, c: seq<T>, d: seq<T>)
    ensures a + sep + c + sep + d == a + sep + (c + sep + d)
  {
  }

  /** An element that is in no piece and not in the separator is not in the join. */
  lemma {:induction false} JoinFree<T>(pieces: seq<seq<T>>, sep: seq<T>, x: T)
    requires |pieces| >= 1 && x !in sep
    requires forall k :: 0 <= k < |pieces| ==> x !in pieces[k]
    ensures x !in Join(pieces, sep)
  {
    if |pieces| > 1 {
      JoinFree(pieces[1..], sep, x);
    }
  }

  /** No piece of a split contains the separator. */
  lemma {:induction false} SplitPiecesFree<T>(s: seq<T>, sep: seq<T>)
    requires |sep| > 0
    ensures forall k :: 0 <= k < |Split(s, sep)| ==> !Contains(Split(s, sep)[k], sep)
    decreases |s|
  {
    var r := IndexOf(s, sep);
    if r.Some? {
      var i := r.value;
      var rest := s[i + |sep|..];
      SplitAt(s, sep, i);
      SplitPiecesFree(rest, sep);
      HeadFree(s, sep, i);
    }
  }

  /** The text before the first occurrence does not contain the pattern. */
  lemma HeadFree<T>(s: seq<T>, sep: seq<T>, i: nat)
    requires |sep| > 0 && IndexOf(s, sep) == Some(i)
    ensures !Contains(s[..i], sep)
  {
    IndexOfFirst(s, sep);
    var head := s[..i];
    if Contains(head, sep) {
      var j := IndexOf(head, sep).value;
      assert head[j..j + |sep|] == s[j..j + |sep|];
      assert OccursAt(s, sep, j);
      assert false;
    }
  }

  /** Concatenation of a sequence of sequences. */
  function Concat<T>(chunks: seq<seq<T>>): seq<T> {
    if |chunks| == 0 then [] else Concat(chunks[..|chunks| - 1]) + chunks[|chunks| - 1]
  }

  lemma ConcatLength<T>(chunks: seq<seq<T>>, k: nat)
    requires k < |chunks|
    ensures |Concat(chunks[..k + 1])| == |Concat(chunks[..k])| + |chunks[k]|
  {
    assert chunks[..k + 1][..k] == chunks[..k];
  }

  /** Elements that satisfy `keep`, in their original order. */
  function Filter<T(!new)>(s: seq<T>, keep: T -> bool): (r: seq<T>)
    ensures |r| <= |s|
    ensures forall x :: x in r <==> x in s && keep(x)
  {
    if |s| == 0 then [] else (if keep(s[0]) then [s[0]] else []) + Filter(s[1..], keep)
  }

  /** Filtering distributes over concatenation. */
  lemma {:induction false} FilterAppend<T(!new)>(a: seq<T>, b: seq<T>, keep: T -> bool)
    ensures Filter(a + b, keep) == Filter(a, keep) + Filter(b, keep)
  {
    if |a| == 0 {
      assert a + b == b;
    } else {
      assert (a + b)[0] == a[0];
      assert (a + b)[1..] == a[1..] + b;
      FilterAppend(a[1..], b, keep);
    }
  }

  /** A filter that removes nothing is the identity. */
  lemma {:induction false} FilterAll<T(!new)>(s: seq<T>, keep: T -> bool)
    requires forall x :: x in s ==> keep(x)
    ensures Filter(s, keep) == s
  {
    if |s| > 0 {
      assert forall x :: x in s[1..] ==> x in s;
      FilterAll(s[1..], keep);
    }
  }

  /** The filter is shorter exactly when it removed something. */
  lemma {:induction false} FilterShrinks<T(!new)>(s: seq<T>, keep: T -> bool)
    ensures |Filter(s, keep)| == |s| <==> forall x :: x in s ==> keep(x)
  {
    if |s| > 0 {
      FilterShrinks(s[1..], keep);
      assert forall x :: x in s <==> x == s[0] || x in s[1..];
    }
  }

  /** `removeAll { $0 === x }`: every occurrence of `x` goes, the rest keep their order. */
  function Without<T(==)>(s: seq<T>, x: T): (r: seq<T>)
    ensures |r| <= |s|
  {
    if |s| == 0 then [] else (if s[0] == x then [] else [s[0]]) + Without(s[1..], x)
  }

  /** Exactly the elements other than `x` survive. */
  lemma {:induction false} WithoutMembers<T>(s: seq<T>, x: T, y: T)
    ensures y in Without(s, x) <==> y in s && y != x
  {
    if |s| > 0 {
      WithoutMembers(s[1..], x, y);
      assert s == [s[0]] + s[1..];
    }
  }

  /** Removal distributes over concatenation, so the survivors keep their relative order. */
  lemma {:induction false} WithoutAppend<T>(a: seq<T>, b: seq<T>, x: T)
    ensures Without(a + b, x) == Without(a, x) + Without(b, x)
  {
    if |a| == 0 {
      assert a + b == b;
    } else {
      assert (a + b)[0] == a[0];
      assert (a + b)[1..] == a[1..] + b;
      WithoutAppend(a[1..], b, x);
    }
  }

  /** Removing an element that is not there changes nothing. */
  lemma {:induction false} WithoutAbsent<T>(s: seq<T>, x: T)
    requires x !in s
    ensures Without(s, x) == s
  {
    if |s| > 0 {
      assert s[0] != x;
      assert x !in s[1..];
      WithoutAbsent(s[1..], x);
    }
  }
}
