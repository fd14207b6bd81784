/** The shared memory of a skip list with one writer and lock-free readers: a link per node
    and level, the list height, and the sets of keys that the levels hold. */
module SkipModel {
  /** A node is named by its key, which no other node has; nullptr sorts behind all keys. */
  datatype Ref = Head | Node(key: int) | Null

  predicate Lt(a: Ref, b: Ref) {
    match a
    case Head => b != Head
    case Node(k) => b == Null || (b.Node? && k < b.key)
    case Null => false
  }

  /** next[i] holds the links of level i, of those nodes where one has been stored. */
  datatype Mem = Mem(next: seq<map<Ref, Ref>>, height: nat)

  type Levels = seq<set<int>>

  /** p is the head or a node of a level with keys s. */
  predicate On(s: set<int>, p: Ref) {
    p == Head || (p.Node? && p.key in s)
  }

  /** q is what follows p on a level with keys s. */
  ghost predicate IsNext(s: set<int>, p: Ref, q: Ref) {
    && (q == Null || (q.Node? && q.key in s)) && Lt(p, q)
    && forall k :: k in s && Lt(p, Node(k)) ==> !Lt(Node(k), q)
  }

  /** p is the last node of the level before `key`, or the head. */
  ghost predicate IsPred(s: set<int>, key: int, p: Ref) {
    && On(s, p) && Lt(p, Node(key))
    && forall k :: k in s && k < key ==> !Lt(p, Node(k))
  }

  lemma PredIsUnique(s: set<int>, key: int, p: Ref, q: Ref)
    requires IsPred(s, key, p) && IsPred(s, key, q)
    ensures p == q
  {
    assert q.Node? ==> !Lt(p, Node(q.key));
    assert p.Node? ==> !Lt(q, Node(p.key));
  }

  /** The links of a level lead through its keys in increasing order. */
  ghost predicate Linked(next: map<Ref, Ref>, s: set<int>) {
    forall p :: On(s, p) ==> p in next && IsNext(s, p, next[p])
  }

  /** Every level is in order, and a part of the level below. */
  ghost predicate Ordered(m: Mem, s: Levels) {
    && |m.next| == |s| && 1 <= m.height <= |s|
    && (forall i :: 0 <= i < |s| ==> Linked(m.next[i], s[i]))
    && (forall i :: 0 < i < |s| ==> s[i] <= s[i - 1])
    && (forall i :: m.height <= i < |s| ==> s[i] == {})
  }

  lemma {:induction false} LevelsNest(m: Mem, s: Levels, i: nat, j: nat)
    requires Ordered(m, s) && i <= j < |s|
    ensures s[j] <= s[i]
    decreases j - i
  {
    if i < j {
      LevelsNest(m, s, i, j - 1);
    }
  }

  /** The keys met on the way from p along the links, at most n of them. */
  ghost function Walk(next: map<Ref, Ref>, p: Ref, n: nat): seq<int>
    decreases n
  {
    if n == 0 || p !in next || !next[p].Node? then [] else [next[p].key] + Walk(next, next[p], n - 1)
  }

  ghost predicate Increasing(q: seq<int>) {
    forall i, j :: 0 <= i < j < |q| ==> q[i] < q[j]
  }

  /** The keys of a level behind p. */
  ghost function Behind(s: set<int>, p: Ref): set<int> {
    set k | k in s && Lt(p, Node(k))
  }

  lemma BehindNext(s: set<int>, p: Ref, q: Ref)
    requires IsNext(s, p, q)
    ensures q == Null ==> Behind(s, p) == {}
    ensures q.Node? ==> q.key !in Behind(s, q) && Behind(s, p) == Behind(s, q) + {q.key}
  {
    forall k | k in s && Lt(p, Node(k))
      ensures q.Node? && (k == q.key || Lt(q, Node(k)))
    {
      assert !Lt(Node(k), q);
    }
  }

  /** A walk along a level meets the keys behind p, all of them, in increasing order. */
  lemma {:induction false} WalkMeetsAll(next: map<Ref, Ref>, s: set<int>, p: Ref, n: nat)
    requires Linked(next, s) && On(s, p) && n == |Behind(s, p)|
    ensures Increasing(Walk(next, p, n))
    ensures forall k :: k in Walk(next, p, n) <==> k in Behind(s, p)
    decreases n
  {
    var q := next[p];
    BehindNext(s, p, q);
    assert IsNext(s, p, q);
    if q.Node? {
      assert |Behind(s, p)| == |Behind(s, q)| + 1;
      WalkMeetsAll(next, s, q, n - 1);
      var rest := Walk(next, q, n - 1);
      assert Walk(next, p, n) == [q.key] + rest;
      assert forall k :: k in Behind(s, q) ==> q.key < k;
      hide Walk, Behind, Linked, IsNext, Increasing;
      OneMore(q.key, rest, Behind(s, q));
    }
  }

  lemma OneMore(x: int, rest: seq<int>, ks: set<int>)
    requires Increasing(rest) && (forall k :: k in rest <==> k in ks) && forall k :: k in ks ==> x < k
    ensures Increasing([x] + rest) && forall k :: k in [x] + rest <==> k in ks + {x}
  {
    forall j | 0 <= j < |rest|
      ensures x < rest[j]
    {
      assert rest[j] in rest;
    }
  }

  // ------------------------------------------------------- the writes of an insertion

  /** max_height_.store */
  function StoreHeight(m: Mem, h: nat): Mem {
    m.(height := h)
  }

  /** SetNext(i, q) of node p. */
  function SetNext(m: Mem, i: nat, p: Ref, q: Ref): Mem
    requires i < |m.next|
  {
    m.(next := m.next[i := m.next[i][p := q]])
  }

  /** Raising the height shows the readers empty levels. */
  lemma RaiseKeeps(m: Mem, s: Levels, h: nat)
    requires Ordered(m, s) && m.height <= h <= |s|
    ensures Ordered(StoreHeight(m, h), s)
  {
  }

  /** A link of a node that is not on the level yet matters to nobody. */
  lemma InitKeeps(m: Mem, s: Levels, i: nat, key: int, q: Ref)
    requires Ordered(m, s) && i < |s| && key !in s[i]
    ensures Ordered(SetNext(m, i, Node(key), q), s)
  {
    assert Linked(m.next[i], s[i]);
  }

  /** Publishing a node on level i, behind its predecessor there. */
  lemma PublishKeeps(m: Mem, s: Levels, i: nat, key: int, p: Ref)
    requires Ordered(m, s) && i < m.height && key !in s[i] && (i > 0 ==> key in s[i - 1])
    requires IsPred(s[i], key, p)
    requires p in m.next[i] && Node(key) in m.next[i] && m.next[i][Node(key)] == m.next[i][p]
    requires i + 1 < |s| ==> key !in s[i + 1]
    ensures Ordered(SetNext(m, i, p, Node(key)), s[i := s[i] + {key}])
  {
    LevelGrows(m.next[i], s[i], key, p);
  }

  lemma LevelGrows(next: map<Ref, Ref>, s: set<int>, key: int, p: Ref)
    requires Linked(next, s) && key !in s && IsPred(s, key, p)
    requires p in next && Node(key) in next && next[Node(key)] == next[p]
    ensures Linked(next[p := Node(key)], s + {key})
  {
    var after, grown := next[p := Node(key)], s + {key};
    var q := next[p];
    assert IsNext(s, p, q);
    forall r | On(grown, r)
      ensures r in after && IsNext(grown, r, after[r])
    {
      if r == p {
        assert IsNext(grown, p, Node(key));
      } else if r == Node(key) {
        assert Lt(r, q);
      } else {
        assert On(s, r) && IsNext(s, r, next[r]);
        assert r.Node? && r.key < key ==> !Lt(p, r);
        if Lt(r, Node(key)) {
          assert Lt(r, p);
          assert p.Node? ==> !Lt(p, next[r]);
        }
      }
    }
  }
}
