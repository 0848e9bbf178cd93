/** The optional-value datatype used for parsers and lookups. */
module Wrappers {
  datatype Option<+T> = None | Some(value: T)
}

/** Generic sequence operations shared by the protocol and firmware models:
    concatenation of chunks, prefix/suffix tests, substring search and the
    separator split and join that Python's `bytes.split`/`str.split` perform. */
module Seqs {

  /** The concatenation of all chunks, in order. */
  function Flatten<T>(chunks: seq<seq<T>>): seq<T>
  {
    if chunks == [] then [] else Flatten(chunks[..|chunks| - 1]) + chunks[|chunks| - 1]
  }

  lemma FlattenSnoc<T>(chunks: seq<seq<T>>, k: nat)
    requires k < |chunks|
    ensures Flatten(chunks[..k + 1]) == Flatten(chunks[..k]) + chunks[k]
  {
    assert chunks[..k + 1][..k] == chunks[..k];
  }

  /** The chunks read so far always spell a prefix of everything that arrives. */
  lemma {:induction false} FlattenSplit<T>(chunks: seq<seq<T>>, k: nat)
    requires k <= |chunks|
    ensures Flatten(chunks[..k]) + Flatten(chunks[k..]) == Flatten(chunks)
    decreases |chunks|
  {
    if k == |chunks| {
      assert chunks[..k] == chunks;
      assert chunks[k..] == [];
    } else {
      var n := |chunks| - 1;
      FlattenSplit(chunks[..n], k);
      assert chunks[..n][..k] == chunks[..k];
      assert chunks[k..][..|chunks[k..]| - 1] == chunks[..n][k..];
      assert chunks[k..][|chunks[k..]| - 1] == chunks[n];
    }
  }

  predicate StartsWith<T(==)>(s: seq<T>, prefix: seq<T>)
  {
    |prefix| <= |s| && s[..|prefix|] == prefix
  }

  predicate EndsWith<T(==)>(s: seq<T>, suffix: seq<T>)
  {
    |suffix| <= |s| && s[|s| - |suffix|..] == suffix
  }

  /** Substring containment, as Python's `sub in s`. */
  predicate Contains<T(==)>(s: seq<T>, sub: seq<T>)
    decreases |s|
  {
    StartsWith(s, sub) || (s != [] && Contains(s[1..], sub))
  }

  lemma {:induction false} ContainsAt<T>(s: seq<T>, sub: seq<T>, k: nat)
    requires k <= |s| && StartsWith(s[k..], sub)
    ensures Contains(s, sub)
    decreases k
  {
    if k > 0 {
      assert s[1..][k - 1..] == s[k..];
      ContainsAt(s[1..], sub, k - 1);
    }
  }

  /** Containment is exactly "occurs at some position". */
  lemma {:induction false} ContainsWitness<T>(s: seq<T>, sub: seq<T>) returns (k: nat)
    requires Contains(s, sub)
    ensures k <= |s| && StartsWith(s[k..], sub)
    decreases |s|
  {
    if StartsWith(s, sub) {
      k := 0;
    } else {
      var j := ContainsWitness(s[1..], sub);
      assert s[1..][j..] == s[j + 1..];
      k := j + 1;
    }
  }

  /** Whatever contains `before + sub` contains `sub`. */
  lemma ContainsSuffixOf<T>(s: seq<T>, before: seq<T>, sub: seq<T>)
    requires Contains(s, before + sub)
    ensures Contains(s, sub)
  {
    var k := ContainsWitness(s, before + sub);
    assert s[k..][..|before + sub|] == before + sub;
    assert s[k + |before|..][..|sub|] == (before + sub)[|before|..];
    ContainsAt(s, sub, k + |before|);
  }

  /** Number of occurrences of `x` in `s`. */
  function Count<T(==)>(s: seq<T>, x: T): nat
  {
    if s == [] then 0 else (if s[0] == x then 1 else 0) + Count(s[1..], x)
  }

  /** Python's `s.split(sep)` for a one-element separator: the maximal pieces
      between occurrences of `sep`; n occurrences give n + 1 pieces. */
  function Split<T(==)>(s: seq<T>, sep: T): (parts: seq<seq<T>>)
    ensures |parts| >= 1
    decreases |s|
  {
    if s == [] then [[]]
    else
      var rest := Split(s[1..], sep);
      if s[0] == sep then [[]] + rest else [[s[0]] + rest[0]] + rest[1..]
  }

  /** Python's `sep.join(parts)`. */
  function Join<T>(parts: seq<seq<T>>, sep: T): seq<T>
    requires |parts| >= 1
  {
    if |parts| == 1 then parts[0] else parts[0] + [sep] + Join(parts[1..], sep)
  }

  lemma {:induction false} SplitCount<T>(s: seq<T>, sep: T)
    ensures |Split(s, sep)| == Count(s, sep) + 1
    decreases |s|
  {
    if s != [] {
      SplitCount(s[1..], sep);
    }
  }

  /** No piece of a split contains the separator. */
  lemma {:induction false} SplitPiecesFree<T>(s: seq<T>, sep: T)
    ensures forall i :: 0 <= i < |Split(s, sep)| ==> sep !in Split(s, sep)[i]
    decreases |s|
  {
    if s != [] {
      SplitPiecesFree(s[1..], sep);
    }
  }

  /** Joining the pieces back with the separator gives the original sequence. */
  lemma {:induction false} JoinSplit<T>(s: seq<T>, sep: T)
    ensures Join(Split(s, sep), sep) == s
    decreases |s|
  {
    if s != [] {
      var rest := Split(s[1..], sep);
      JoinSplit(s[1..], sep);
      if s[0] == sep {
        assert ([[]] + rest)[1..] == rest;
      } else {
        var parts := [[s[0]] + rest[0]] + rest[1..];
        if |rest| > 1 {
          assert parts[1..] == rest[1..];
          assert Join(rest, sep) == rest[0] + [sep] + Join(rest[1..], sep);
        }
      }
    }
  }

  /** Splitting the join of separator-free pieces gives the pieces back. */
  lemma {:induction false} SplitJoin<T>(parts: seq<seq<T>>, sep: T)
    requires |parts| >= 1
    requires forall i :: 0 <= i < |parts| ==> sep !in parts[i]
    ensures Split(Join(parts, sep), sep) == parts
    decreases |parts|
  {
    if |parts| == 1 {
      SplitFree(parts[0], sep);
    } else {
      SplitJoin(parts[1..], sep);
      SplitPrefix(parts[0], sep, Join(parts[1..], sep));
      assert [parts[0]] + parts[1..] == parts;
    }
  }

  lemma {:induction false} SplitFree<T>(s: seq<T>, sep: T)
    requires sep !in s
    ensures Split(s, sep) == [s]
    decreases |s|
  {
    if s != [] {
      SplitFree(s[1..], sep);
      assert [s[0]] + s[1..] == s;
    }
  }

  /** A separator-free head followed by the separator splits off as the first piece. */
  lemma {:induction false} SplitPrefix<T>(head: seq<T>, sep: T, tail: seq<T>)
    requires sep !in head
    ensures Split(head + [sep] + tail, sep) == [head] + Split(tail, sep)
    decreases |head|
  {
    var s := head + [sep] + tail;
    if head == [] {
      assert s[1..] == tail;
    } else {
      assert s[1..] == head[1..] + [sep] + tail;
      SplitPrefix(head[1..], sep, tail);
      assert [s[0]] + head[1..] == head;
    }
  }

  /** A sequence that contains the separator splits into at least two pieces. */
  lemma {:induction false} SplitAtLeastTwo<T>(s: seq<T>, sep: T)
    requires sep in s
    ensures |Split(s, sep)| >= 2
    decreases |s|
  {
    if s[0] != sep {
      SplitAtLeastTwo(s[1..], sep);
    }
  }

  /** An element that is neither the separator nor in any piece is not in the join. */
  lemma {:induction false} JoinFree<T>(parts: seq<seq<T>>, sep: T, x: T)
    requires |parts| >= 1 && x != sep
    requires forall i :: 0 <= i < |parts| ==> x !in parts[i]
    ensures x !in Join(parts, sep)
    decreases |parts|
  {
    if |parts| > 1 {
      JoinFree(parts[1..], sep, x);
    }
  }

  /** Both ends of `s` with the elements satisfying `p` removed, one at a
      time from the front and then from the back: the common shape of
      Python's `strip()` and Arduino's `String::trim()`. */
  function Trim<T>(s: seq<T>, p: T -> bool): (r: seq<T>)
    ensures |r| <= |s|
    ensures r == [] || (!p(r[0]) && !p(r[|r| - 1]))
    decreases |s|
  {
    if s != [] && p(s[0]) then Trim(s[1..], p)
    else if s != [] && p(s[|s| - 1]) then Trim(s[..|s| - 1], p)
    else s
  }

  /** A sequence whose ends are both kept is its own trim. */
  lemma TrimKeeps<T>(s: seq<T>, p: T -> bool)
    requires s == [] || (!p(s[0]) && !p(s[|s| - 1]))
    ensures Trim(s, p) == s
  {
  }

  /** Trimming leaves a sequence alone exactly when neither end is to be removed. */
  lemma TrimNoop<T>(s: seq<T>, p: T -> bool)
    ensures Trim(s, p) == s <==> (s == [] || (!p(s[0]) && !p(s[|s| - 1])))
  {
    if s == [] || (!p(s[0]) && !p(s[|s| - 1])) {
      TrimKeeps(s, p);
    } else {
      TrimEnds(s, p);
    }
  }

  /** Prefixing a trimmed sequence with a kept element keeps it trimmed. */
  lemma TrimPrepend<T>(pre: seq<T>, s: seq<T>, p: T -> bool)
    requires Trim(s, p) == s && pre != [] && !p(pre[0]) && !p(pre[|pre| - 1])
    ensures Trim(pre + s, p) == pre + s
  {
    TrimEnds(s, p);
    ConcatEnds(pre, s);
    TrimKeeps(pre + s, p);
  }

  /** Removable elements after a sequence whose ends are kept are all cut off. */
  lemma {:induction false} TrimTrailing<T>(s: seq<T>, t: seq<T>, p: T -> bool)
    requires s != [] && !p(s[0]) && !p(s[|s| - 1])
    requires forall i :: 0 <= i < |t| ==> p(t[i])
    ensures Trim(s + t, p) == s
    decreases |t|
  {
    if t == [] {
      assert s + t == s;
      TrimKeeps(s, p);
    } else {
      var u := s + t;
      assert u[0] == s[0] && u[|u| - 1] == t[|t| - 1];
      assert u[..|u| - 1] == s + t[..|t| - 1];
      TrimTrailing(s, t[..|t| - 1], p);
    }
  }

  /** A sequence that is its own trim has both ends kept. */
  lemma TrimEnds<T>(s: seq<T>, p: T -> bool)
    ensures Trim(s, p) == s ==> s == [] || (!p(s[0]) && !p(s[|s| - 1]))
  {
    if s != [] && p(s[0]) {
      assert |Trim(s[1..], p)| < |s|;
    } else if s != [] && p(s[|s| - 1]) {
      assert |Trim(s[..|s| - 1], p)| < |s|;
    }
  }

  lemma ConcatEnds<T>(pre: seq<T>, s: seq<T>)
    requires pre != []
    ensures (pre + s)[0] == pre[0]
    ensures (pre + s)[|pre + s| - 1] == if s == [] then pre[|pre| - 1] else s[|s| - 1]
  {
  }

  /** One removable element on each side of a trimmed core is cut off, and nothing more. */
  lemma TrimSurrounded<T>(x: T, m: seq<T>, p: T -> bool)
    requires p(x) && (m == [] || (!p(m[0]) && !p(m[|m| - 1])))
    ensures Trim([x] + m + [x], p) == m
  {
    var s := [x] + m + [x];
    assert s[1..] == m + [x];
    if m == [] {
      assert Trim([x], p) == Trim([x][1..], p);
    } else {
      assert (m + [x])[0] == m[0];
      assert (m + [x])[..|m|] == m;
      TrimKeeps(m, p);
    }
  }
}
