/** Cluster chains: how entries of a file allocation table link clusters, what walking and
    releasing a chain does, and when a walk ends.  A table is the sequence of masked entries,
    indexed by cluster number. */
module Chains {
  type Fat = seq<nat>

  /** The driver follows a value while this holds; everything else ends the chain. */
  predicate IsLink(c: nat) { 2 <= c < 0x0FFF_FFF8 }

  predicate InFat(fat: Fat, c: nat) { IsLink(c) && c < |fat| }

  /** `ch` lists clusters that point to one another, the last one to no cluster. */
  ghost predicate Linked(fat: Fat, ch: seq<nat>) {
    && (forall k :: 0 <= k < |ch| ==> InFat(fat, ch[k]))
    && (forall k :: 0 <= k < |ch| - 1 ==> fat[ch[k]] == ch[k + 1])
    && (ch != [] ==> !IsLink(fat[ch[|ch| - 1]]))
  }

  /** `ch` is the whole chain that starts with the value c. */
  ghost predicate IsChain(fat: Fat, c: nat, ch: seq<nat>) {
    Linked(fat, ch) && if ch == [] then !IsLink(c) else ch[0] == c
  }

  /** The same by values: clusters of the table, each entry holding the next number, and at the end a
      value below 2 or an end-of-chain mark. */
  lemma ChainByValues(fat: Fat, c: nat, ch: seq<nat>)
    requires |fat| <= 0x0FFF_FFF8
    ensures IsChain(fat, c, ch) <==>
      && (forall k :: 0 <= k < |ch| ==> 2 <= ch[k] < |fat|)
      && (forall k :: 0 <= k < |ch| - 1 ==> fat[ch[k]] == ch[k + 1])
      && (ch != [] ==> ch[0] == c)
      && var last := if ch == [] then c else fat[ch[|ch| - 1]]; last < 2 || last >= 0x0FFF_FFF8
  {
  }

  lemma LinkedTail(fat: Fat, ch: seq<nat>)
    requires Linked(fat, ch) && ch != []
    ensures IsChain(fat, fat[ch[0]], ch[1..])
  {
    forall k | 0 <= k < |ch[1..]| - 1 ensures fat[ch[1..][k]] == ch[1..][k + 1] {
      assert ch[1..][k] == ch[k + 1];
    }
  }

  /** A finite chain is acyclic: no cluster occurs twice. */
  lemma {:induction false} ChainAcyclic(fat: Fat, ch: seq<nat>, i: nat, j: nat)
    requires Linked(fat, ch) && i < j < |ch|
    ensures ch[i] != ch[j]
    decreases |ch| - j
  {
    assert fat[ch[i]] == ch[i + 1];
    if j + 1 < |ch| {
      assert fat[ch[j]] == ch[j + 1];
      ChainAcyclic(fat, ch, i + 1, j + 1);
    }
  }

  /** A starting value has at most one chain. */
  lemma {:induction false} ChainUnique(fat: Fat, c: nat, a: seq<nat>, b: seq<nat>)
    requires IsChain(fat, c, a) && IsChain(fat, c, b)
    ensures a == b
    decreases |a|
  {
    if a != [] && b != [] {
      LinkedTail(fat, a);
      LinkedTail(fat, b);
      ChainUnique(fat, fat[c], a[1..], b[1..]);
      assert a == [a[0]] + a[1..] && b == [b[0]] + b[1..];
    }
  }

  /** A chain survives any change of entries that are not its own. */
  lemma LinkedFrame(fat: Fat, fat': Fat, ch: seq<nat>)
    requires Linked(fat, ch) && |fat'| == |fat|
    requires forall k :: 0 <= k < |ch| ==> fat'[ch[k]] == fat[ch[k]]
    ensures Linked(fat', ch)
  {
  }

  // ----- walking -----

  /** Where a walk from c stands after k steps; it stays put once it left the table.  A link that
      leads out of the table ends the walk here, while the driver would follow it to sectors behind
      the table: the two agree on walks that stay inside (StaysInside). */
  function Iter(fat: Fat, c: nat, k: nat): nat
    decreases k
  {
    if k == 0 || !InFat(fat, c) then c else Iter(fat, fat[c], k - 1)
  }

  lemma {:induction false} IterNext(fat: Fat, c: nat, k: nat)
    ensures Iter(fat, c, k + 1) == var x := Iter(fat, c, k); if InFat(fat, x) then fat[x] else x
    decreases k
  {
    if k > 0 && InFat(fat, c) {
      IterNext(fat, fat[c], k - 1);
    }
  }

  /** The clusters a walk from c visits. */
  ghost predicate Reachable(fat: Fat, c: nat, x: nat) {
    InFat(fat, x) && exists k: nat :: Iter(fat, c, k) == x
  }

  /** Every cluster number the walk meets lies in the table. */
  ghost predicate StaysInside(fat: Fat, c: nat) {
    forall k: nat :: InsideAt(fat, c, k)
  }

  ghost predicate InsideAt(fat: Fat, c: nat, k: nat) {
    IsLink(Iter(fat, c, k)) ==> Iter(fat, c, k) < |fat|
  }

  lemma {:induction false} IterOfChain(fat: Fat, c: nat, ch: seq<nat>, k: nat)
    requires IsChain(fat, c, ch)
    ensures k < |ch| ==> Iter(fat, c, k) == ch[k]
    ensures k >= |ch| ==> !IsLink(Iter(fat, c, k))
    decreases k
  {
    if k > 0 && ch != [] {
      LinkedTail(fat, ch);
      IterOfChain(fat, fat[c], ch[1..], k - 1);
    }
  }

  lemma ChainStaysInside(fat: Fat, c: nat, ch: seq<nat>)
    requires IsChain(fat, c, ch)
    ensures StaysInside(fat, c)
  {
    forall k: nat ensures InsideAt(fat, c, k) {
      IterOfChain(fat, c, ch, k);
    }
  }

  lemma StaysInsideNext(fat: Fat, c: nat)
    requires StaysInside(fat, c) && IsLink(c)
    ensures InFat(fat, c) && StaysInside(fat, fat[c])
  {
    assert InsideAt(fat, c, 0);
    var next := fat[c];
    forall k: nat ensures InsideAt(fat, next, k) {
      assert InsideAt(fat, c, k + 1);
    }
  }

  // ----- releasing -----

  /** Number of allocated entries. */
  function NonZero(fat: Fat): (n: nat)
    ensures n <= |fat|
  {
    if fat == [] then 0 else (if fat[0] != 0 then 1 else 0) + NonZero(fat[1..])
  }

  lemma {:induction false} NonZeroCleared(fat: Fat, c: nat)
    requires c < |fat|
    ensures NonZero(fat[c := 0]) == NonZero(fat) - if fat[c] != 0 then 1 else 0
  {
    if c == 0 {
      assert fat[c := 0][1..] == fat[1..];
    } else {
      assert fat[c := 0][1..] == fat[1..][c - 1 := 0];
      NonZeroCleared(fat[1..], c - 1);
    }
  }

  /** The table after the driver's release loop started at c: read the successor, clear the
      entry, go on, as far as the links stay inside the table.  It ends on cyclic tables too: each
      round clears an allocated entry, or else the next value is 0 and no round follows. */
  function Release(fat: Fat, c: nat): (r: Fat)
    ensures |r| == |fat|
    decreases NonZero(fat), if IsLink(c) then 1 else 0
  {
    if !InFat(fat, c) then fat
    else
      NonZeroCleared(fat, c);
      Release(fat[c := 0], fat[c])
  }

  /** A walk that is still inside the table after entry c was cleared was also a walk before. */
  lemma {:induction false} IterCleared(fat: Fat, c: nat, y: nat, k: nat)
    requires c < |fat|
    ensures IsLink(Iter(fat[c := 0], y, k)) ==> Iter(fat, y, k) == Iter(fat[c := 0], y, k)
    decreases k
  {
    if k > 0 && InFat(fat, y) {
      IterCleared(fat, c, fat[c := 0][y], k - 1);
      if y == c {
        assert Iter(fat[c := 0], 0, k - 1) == 0;
      }
    }
  }

  /** A walk to x != c can be cut behind its last visit to c. */
  lemma {:induction false} IterAvoiding(fat: Fat, c: nat, y: nat, j: nat, x: nat) returns (fromY: bool, m: nat)
    requires InFat(fat, c) && InFat(fat, x) && x != c && Iter(fat, y, j) == x
    ensures Iter(fat[c := 0], if fromY then y else fat[c], m) == x
    decreases j
  {
    if j == 0 || !InFat(fat, y) {
      fromY, m := true, 0;
    } else {
      fromY, m := IterAvoiding(fat, c, fat[y], j - 1, x);
      if y == c {
        fromY := false;
      } else if fromY {
        m := m + 1;
      }
    }
  }

  lemma ReachableCleared(fat: Fat, c: nat, x: nat)
    requires InFat(fat, c) && x != c
    ensures Reachable(fat, c, x) <==> Reachable(fat[c := 0], fat[c], x)
  {
    if Reachable(fat, c, x) {
      var j: nat :| Iter(fat, c, j) == x;
      var _, m := IterAvoiding(fat, c, fat[c], j - 1, x);
    }
    if Reachable(fat[c := 0], fat[c], x) {
      var m: nat :| Iter(fat[c := 0], fat[c], m) == x;
      IterCleared(fat, c, fat[c], m);
      assert Iter(fat, c, m + 1) == x;
    }
  }

  /** Release clears exactly the clusters reachable from its start, cyclic or not. */
  lemma {:induction false} ReleaseClearsReachable(fat: Fat, c: nat, x: nat)
    requires x < |fat|
    ensures Release(fat, c)[x] == if Reachable(fat, c, x) then 0 else fat[x]
    decreases NonZero(fat), if IsLink(c) then 1 else 0
  {
    if InFat(fat, c) {
      NonZeroCleared(fat, c);
      ReleaseClearsReachable(fat[c := 0], fat[c], x);
      if x == c {
        assert Iter(fat, c, 0) == x;
      } else {
        ReachableCleared(fat, c, x);
      }
    }
  }

  /** The table with the listed clusters cleared. */
  function Cleared(fat: Fat, cs: seq<nat>): (r: Fat)
    ensures |r| == |fat|
    ensures forall x :: 0 <= x < |fat| ==> r[x] == if x in cs then 0 else fat[x]
  {
    seq(|fat|, x requires 0 <= x < |fat| => if x in cs then 0 else fat[x])
  }

  /** On a proper chain, release clears its clusters and nothing else, and gives each one back. */
  lemma {:induction false} ReleaseChain(fat: Fat, c: nat, ch: seq<nat>)
    requires IsChain(fat, c, ch)
    requires forall k :: 0 <= k < |ch| ==> fat[ch[k]] != 0
    ensures Release(fat, c) == Cleared(fat, ch)
    ensures NonZero(Release(fat, c)) == NonZero(fat) - |ch|
    decreases |ch|
  {
    if ch != [] {
      assert fat[ch[0]] != 0;
      ClearFirst(fat, ch);
      NonZeroCleared(fat, c);
      ReleaseChain(fat[c := 0], fat[c], ch[1..]);
      ClearedCons(fat, ch);
    }
  }

  lemma ClearedCons(fat: Fat, ch: seq<nat>)
    requires ch != [] && ch[0] < |fat|
    ensures Cleared(fat[ch[0] := 0], ch[1..]) == Cleared(fat, ch)
  {
    assert forall x :: x in ch <==> x == ch[0] || x in ch[1..];
  }

  /** After the first cluster of a chain was cleared, the rest is still a chain. */
  lemma ClearFirst(fat: Fat, ch: seq<nat>)
    requires Linked(fat, ch) && ch != []
    ensures IsChain(fat[ch[0] := 0], fat[ch[0]], ch[1..])
    ensures forall k :: 0 <= k < |ch[1..]| ==> fat[ch[0] := 0][ch[1..][k]] == fat[ch[1..][k]]
  {
    LinkedTail(fat, ch);
    forall k | 0 <= k < |ch[1..]| ensures fat[ch[0] := 0][ch[1..][k]] == fat[ch[1..][k]] {
      ChainAcyclic(fat, ch, 0, k + 1);
    }
    LinkedFrame(fat, fat[ch[0] := 0], ch[1..]);
  }

  lemma StaysInsideCleared(fat: Fat, c: nat)
    requires InFat(fat, c) && StaysInside(fat, c)
    ensures StaysInside(fat[c := 0], fat[c])
  {
    var fat', next := fat[c := 0], fat[c];
    forall k: nat ensures InsideAt(fat', next, k) {
      IterCleared(fat, c, next, k);
      assert InsideAt(fat, c, k + 1);
    }
  }

  // ----- when a directory walk ends -----

  /** A walk goes on from x if x is a cluster of the table whose scan does not end the walk.
      `stop` holds the clusters whose scan does: by a match, a free slot or the end marker. */
  predicate GoesOn(fat: Fat, stop: set<nat>, x: nat) { InFat(fat, x) && x !in stop }

  ghost predicate HaltsAt(fat: Fat, stop: set<nat>, c: nat, k: nat) {
    !GoesOn(fat, stop, Iter(fat, c, k))
  }

  /** After j steps, none of them stopped, the walk is back where it was before. */
  ghost predicate RepeatsAt(fat: Fat, stop: set<nat>, c: nat, j: nat) {
    && (forall m: nat :: m <= j ==> !HaltsAt(fat, stop, c, m))
    && exists i: nat :: i < j && Iter(fat, c, i) == Iter(fat, c, j)
  }

  lemma {:induction false} IterAdd(fat: Fat, c: nat, a: nat, b: nat)
    ensures Iter(fat, c, a + b) == Iter(fat, Iter(fat, c, a), b)
    decreases a
  {
    if a > 0 && InFat(fat, c) {
      IterAdd(fat, fat[c], a - 1, b);
    }
  }

  lemma {:induction false} RepeatNeverHalts(fat: Fat, stop: set<nat>, c: nat, i: nat, j: nat, k: nat)
    requires i < j && Iter(fat, c, i) == Iter(fat, c, j)
    requires forall m: nat :: m <= j ==> !HaltsAt(fat, stop, c, m)
    ensures !HaltsAt(fat, stop, c, k)
    decreases k
  {
    if k > j {
      IterAdd(fat, c, j, k - j);
      IterAdd(fat, c, i, k - j);
      RepeatNeverHalts(fat, stop, c, i, j, k - (j - i));
    }
  }

  /** Among more than n - 2 numbers from 2 .. n - 1 two are equal. */
  lemma {:induction false} Pigeonhole(xs: seq<nat>, n: nat)
    requires 2 <= n && |xs| > n - 2
    requires forall i :: 0 <= i < |xs| ==> 2 <= xs[i] < n
    ensures exists i, j :: 0 <= i < j < |xs| && xs[i] == xs[j]
    decreases n
  {
    if n == 2 {
      assert false;
    } else if n - 1 in xs {
      var k :| 0 <= k < |xs| && xs[k] == n - 1;
      if exists l :: 0 <= l < |xs| && l != k && xs[l] == xs[k] {
        var l :| 0 <= l < |xs| && l != k && xs[l] == xs[k];
        assert (k < l && xs[k] == xs[l]) || (l < k && xs[l] == xs[k]);
      } else {
        var ys := xs[..k] + xs[k + 1..];
        Pigeonhole(ys, n - 1);
        var i, j :| 0 <= i < j < |ys| && ys[i] == ys[j];
        var i', j' := if i < k then i else i + 1, if j < k then j else j + 1;
        assert ys[i] == xs[i'] && ys[j] == xs[j'];
      }
    } else {
      Pigeonhole(xs, n - 1);
    }
  }

  /** A walk halts within as many steps as the table has clusters, or else it comes back to a
      cluster without having halted. */
  lemma HaltsOrRepeats(fat: Fat, stop: set<nat>, c: nat)
    requires 2 <= |fat|
    ensures (exists k: nat :: k <= |fat| - 2 && HaltsAt(fat, stop, c, k))
         || (exists j: nat :: j <= |fat| - 2 && RepeatsAt(fat, stop, c, j))
  {
    if forall k: nat :: k <= |fat| - 2 ==> !HaltsAt(fat, stop, c, k) {
      var xs := seq(|fat| - 1, k requires 0 <= k => Iter(fat, c, k));
      forall k | 0 <= k < |xs| ensures 2 <= xs[k] < |fat| {
        assert !HaltsAt(fat, stop, c, k);
      }
      Pigeonhole(xs, |fat|);
      var i, j :| 0 <= i < j < |xs| && xs[i] == xs[j];
      assert Iter(fat, c, i) == Iter(fat, c, j);
      assert RepeatsAt(fat, stop, c, j);
    }
  }

  /** A walk halts, at a stop or by leaving the links of the table, exactly when no cluster repeats
      before that, and then within |fat| - 2 steps, the number of clusters. */
  lemma WalkEndsIff(fat: Fat, stop: set<nat>, c: nat)
    requires 2 <= |fat|
    ensures (exists k: nat :: HaltsAt(fat, stop, c, k)) <==> !exists j: nat :: RepeatsAt(fat, stop, c, j)
    ensures (exists k: nat :: HaltsAt(fat, stop, c, k))
       <==> (exists k: nat :: k <= |fat| - 2 && HaltsAt(fat, stop, c, k))
  {
    HaltsOrRepeats(fat, stop, c);
    if j: nat :| RepeatsAt(fat, stop, c, j) {
      var i: nat :| i < j && Iter(fat, c, i) == Iter(fat, c, j);
      forall k: nat ensures !HaltsAt(fat, stop, c, k) {
        RepeatNeverHalts(fat, stop, c, i, j, k);
      }
    }
  }
}
