/**
 * The structural and resize logic of a split pane over an abstract child
 * sequence: panes and the splitters between them, which pane a query or a
 * removal addresses, the interleaving done at mount time, the template edits
 * that go with them, and the clamp of one resize step.
 */
module PaneLayout {
  import opened Wrappers
  import opened JsText
  import opened GridTemplates

  /** An opaque, externally owned pane element. */
  type PaneId = nat

  /** A child element of the split pane: a pane or a splitter (an `sp-splitter` div). */
  datatype Node = Pane(id: PaneId) | Splitter

  /** The well-formed shape of the children: empty, or a pane followed by (splitter, pane) pairs. */
  predicate WellFormed(cs: seq<Node>) {
    |cs| == 0 || (|cs| % 2 == 1 && forall i :: 0 <= i < |cs| ==> (cs[i].Pane? <==> i % 2 == 0))
  }

  /** `getAllPanes()`: the children that are not splitters, in document order. */
  function Panes(cs: seq<Node>): (r: seq<PaneId>)
    ensures |r| <= |cs|
  {
    if cs == [] then [] else (if cs[0].Pane? then [cs[0].id] else []) + Panes(cs[1..])
  }

  /** The number of splitters among `cs`. */
  function SplitterCount(cs: seq<Node>): nat {
    |cs| - |Panes(cs)|
  }

  /** The panes of a concatenation are the panes of its parts. */
  lemma {:induction false} PanesAppend(a: seq<Node>, b: seq<Node>)
    ensures Panes(a + b) == Panes(a) + Panes(b)
    decreases |a|
  {
    if a != [] {
      assert (a + b)[1..] == a[1..] + b;
      PanesAppend(a[1..], b);
    } else {
      assert a + b == b;
    }
  }

  /** `NodeList.item(idx)`: the pane at `idx`, or `None` (JavaScript's `null`) outside the list. */
  function Item(panes: seq<PaneId>, idx: int): (r: Option<PaneId>)
    ensures r.Some? <==> 0 <= idx < |panes|
    ensures r.Some? ==> r.value == panes[idx]
  {
    if 0 <= idx < |panes| then Some(panes[idx]) else None
  }

  /** The position among the children of the pane with index `idx`: a pane with `idx` panes before it. */
  function PanePosition(cs: seq<Node>, idx: nat): (p: nat)
    requires idx < |Panes(cs)|
    ensures p < |cs| && cs[p] == Pane(Panes(cs)[idx])
    ensures |Panes(cs[..p])| == idx
    decreases |cs|
  {
    if cs[0].Pane? && idx == 0 then
      assert cs[..0] == [];
      0
    else
      var k := if cs[0].Pane? then idx - 1 else idx;
      var q := PanePosition(cs[1..], k);
      assert cs[..q + 1] == [cs[0]] + cs[1..][..q];
      PanesAppend([cs[0]], cs[1..][..q]);
      q + 1
  }

  /** In a well-formed sequence the first `p` children hold `(p + 1) / 2` panes. */
  lemma {:induction false} WellFormedPrefixPanes(cs: seq<Node>, p: nat)
    requires WellFormed(cs) && p <= |cs|
    ensures |Panes(cs[..p])| == (p + 1) / 2
  {
    if p > 0 {
      WellFormedPrefixPanes(cs, p - 1);
      assert cs[..p] == cs[..p - 1] + [cs[p - 1]];
      PanesAppend(cs[..p - 1], [cs[p - 1]]);
    }
  }

  /** In a well-formed sequence pane `i` sits at position `2 * i`, and there are `(|cs| + 1) / 2` panes. */
  lemma WellFormedPanes(cs: seq<Node>)
    requires WellFormed(cs)
    ensures |Panes(cs)| == (|cs| + 1) / 2
    ensures forall i :: 0 <= i < |Panes(cs)| ==> PanePosition(cs, i) == 2 * i && cs[2 * i] == Pane(Panes(cs)[i])
  {
    WellFormedPrefixPanes(cs, |cs|);
    assert cs[..|cs|] == cs;
    forall i | 0 <= i < |Panes(cs)|
      ensures PanePosition(cs, i) == 2 * i && cs[2 * i] == Pane(Panes(cs)[i])
    {
      var p := PanePosition(cs, i);
      WellFormedPrefixPanes(cs, p);
    }
  }

  /** The number of splitters before position `p`: the splitter's index in `querySelectorAll('.sp-splitter')`. */
  function SplitterIndex(cs: seq<Node>, p: nat): (k: nat)
    requires p <= |cs|
    ensures k <= p
  {
    SplitterCount(cs[..p])
  }

  /**
   * In a well-formed sequence the splitter with index `k` among the splitters
   * sits between pane `k` and pane `k + 1`: the entries a resize step writes.
   */
  lemma SplitterBetweenPanes(cs: seq<Node>, p: nat)
    requires WellFormed(cs) && p < |cs| && cs[p] == Splitter
    ensures var k := SplitterIndex(cs, p);
            0 < p < |cs| - 1 && k + 1 < |Panes(cs)|
            && cs[p - 1] == Pane(Panes(cs)[k]) && cs[p + 1] == Pane(Panes(cs)[k + 1])
  {
    WellFormedPrefixPanes(cs, p);
    WellFormedPanes(cs);
    assert p % 2 == 1;
  }

  /**
   * The children after `removePane` removed the pane at position `p`: the
   * element before it, or else the element after it, goes with it.
   */
  function ChildrenAfterRemoval(cs: seq<Node>, p: nat): seq<Node>
    requires p < |cs|
  {
    if 0 < p then cs[..p - 1] + cs[p + 1..]
    else if p + 1 < |cs| then cs[..p] + cs[p + 2..]
    else cs[..p] + cs[p + 1..]
  }

  /** `element.remove()` on the child at position `p`. */
  function Without(cs: seq<Node>, p: nat): (r: seq<Node>)
    requires p < |cs|
    ensures |r| == |cs| - 1
  {
    cs[..p] + cs[p + 1..]
  }

  /**
   * `removePane` removes the splitter before the pane (or the one after it,
   * for the first pane) and then the pane: together, what
   * `ChildrenAfterRemoval` says.
   */
  lemma RemovalSteps(cs: seq<Node>, p: nat)
    requires p < |cs|
    ensures 0 < p ==> Without(Without(cs, p - 1), p - 1) == ChildrenAfterRemoval(cs, p)
    ensures p == 0 && 1 < |cs| ==> Without(Without(cs, 1), 0) == ChildrenAfterRemoval(cs, p)
    ensures |cs| == 1 ==> Without(cs, 0) == ChildrenAfterRemoval(cs, p)
  {
    if 0 < p {
      var u := Without(cs, p - 1);
      assert u[..p - 1] == cs[..p - 1] && u[p..] == cs[p + 1..];
    } else if 1 < |cs| {
      var u := Without(cs, 1);
      assert u[..0] == [] && u[1..] == cs[2..];
    }
  }

  /** Away from a lone child, removal shifts everything after the two removed elements down by two. */
  lemma RemovalShifts(cs: seq<Node>, p: nat)
    requires p < |cs| && (0 < p || p + 1 < |cs|)
    ensures var r := ChildrenAfterRemoval(cs, p);
            |r| == |cs| - 2 && forall j :: 0 <= j < |r| ==> r[j] == (if j + 1 < p then cs[j] else cs[j + 2])
  {
    var r := ChildrenAfterRemoval(cs, p);
    var lo := if 0 < p then p - 1 else p;
    assert r == cs[..lo] + cs[lo + 2..];
    forall j | 0 <= j < |r| ensures r[j] == (if j + 1 < p then cs[j] else cs[j + 2]) {
      if j < lo {
        assert r[j] == cs[..lo][j];
      } else {
        assert r[j] == cs[lo + 2..][j - lo];
      }
    }
  }

  /**
   * Removing pane `idx` from a well-formed sequence takes the splitter before
   * it (or, for the first pane, the one after it) along, keeps the sequence
   * well-formed, and leaves the other panes in their order.
   */
  lemma RemovalKeepsShape(cs: seq<Node>, idx: nat)
    requires WellFormed(cs) && idx < |Panes(cs)|
    ensures var p := PanePosition(cs, idx);
            var r := ChildrenAfterRemoval(cs, p);
            && WellFormed(r)
            && Panes(r) == Panes(cs)[..idx] + Panes(cs)[idx + 1..]
            && |r| == (if |cs| == 1 then 0 else |cs| - 2)
            && (idx > 0 ==> cs[p - 1] == Splitter)
            && (idx == 0 && |cs| > 1 ==> cs[p + 1] == Splitter)
  {
    WellFormedPanes(cs);
    var p := PanePosition(cs, idx);
    assert p == 2 * idx;
    if |cs| > 1 {
      RemovalShifts(cs, p);
      RemovalKeepsParity(cs, p);
      RemovalKeepsOtherPanes(cs, idx);
    }
  }

  /** Removing an even position and a neighbour keeps the alternation of panes and splitters. */
  lemma RemovalKeepsParity(cs: seq<Node>, p: nat)
    requires WellFormed(cs) && |cs| > 1 && p < |cs| && p % 2 == 0
    ensures WellFormed(ChildrenAfterRemoval(cs, p))
  {
    var r := ChildrenAfterRemoval(cs, p);
    RemovalShifts(cs, p);
    forall j | 0 <= j < |r| ensures r[j].Pane? <==> j % 2 == 0 {
      if j + 1 >= p {
        assert r[j] == cs[j + 2];
        assert (j + 2) % 2 == j % 2;
      }
    }
    assert |r| % 2 == 1;
  }

  /** The panes left after removing pane `idx` are the others, in their order. */
  lemma RemovalKeepsOtherPanes(cs: seq<Node>, idx: nat)
    requires WellFormed(cs) && |cs| > 1 && idx < |Panes(cs)|
    ensures Panes(ChildrenAfterRemoval(cs, PanePosition(cs, idx))) == Panes(cs)[..idx] + Panes(cs)[idx + 1..]
  {
    var p := PanePosition(cs, idx);
    WellFormedPrefixPanes(cs, p);
    assert p % 2 == 0;
    var lo := if 0 < p then p - 1 else p;
    WellFormedPrefixPanes(cs, lo);
    assert |Panes(cs[..lo])| == idx;
    var pair := cs[lo..lo + 2];
    assert pair[0] == cs[lo] && pair[1] == cs[lo + 1];
    PanesOfPair(pair);
    CutPair(cs, lo, Panes(cs)[idx]);
    assert ChildrenAfterRemoval(cs, p) == cs[..lo] + cs[lo + 2..];
  }

  /** Cutting out two adjacent children that hold one pane cuts that pane out of the panes. */
  lemma CutPair(cs: seq<Node>, lo: nat, x: PaneId)
    requires lo + 2 <= |cs| && Panes(cs[lo..lo + 2]) == [x]
    ensures var k := |Panes(cs[..lo])|;
            k < |Panes(cs)| && Panes(cs[..lo] + cs[lo + 2..]) == Panes(cs)[..k] + Panes(cs)[k + 1..]
  {
    var before, pair, after := cs[..lo], cs[lo..lo + 2], cs[lo + 2..];
    Slices(cs, lo, lo + 2);
    PanesAround(before, pair, after, x);
    CutOne(Panes(before), x, Panes(after));
  }

  /** A sequence is the concatenation of its slices at `lo` and `hi`. */
  lemma Slices<T>(s: seq<T>, lo: nat, hi: nat)
    requires lo <= hi <= |s|
    ensures s == s[..lo] + s[lo..hi] + s[hi..]
  {
  }

  /** A pane next to a splitter contributes exactly its own id. */
  lemma PanesOfPair(pair: seq<Node>)
    requires |pair| == 2 && pair[0].Pane? != pair[1].Pane?
    ensures Panes(pair) == if pair[0].Pane? then [pair[0].id] else [pair[1].id]
  {
    assert pair[1..][1..] == [];
  }

  /** Cutting out a part that holds exactly one pane cuts exactly that pane out of the panes. */
  lemma PanesAround(before: seq<Node>, pair: seq<Node>, after: seq<Node>, x: PaneId)
    requires Panes(pair) == [x]
    ensures Panes(before + pair + after) == Panes(before) + [x] + Panes(after)
    ensures Panes(before + after) == Panes(before) + Panes(after)
  {
    PanesAppend(before, pair);
    PanesAppend(before + pair, after);
    PanesAppend(before, after);
  }

  /** Removing the element at `|a|` from `a + [x] + b` leaves `a + b`. */
  lemma CutOne<T>(a: seq<T>, x: T, b: seq<T>)
    ensures (a + [x] + b)[..|a|] + (a + [x] + b)[|a| + 1..] == a + b
  {
    var all := a + [x] + b;
    assert all[..|a|] == a;
    assert all[|a| + 1..] == b;
  }

  /** The template after `removePane(idx)`: entry `idx` goes, and the boundary entry is reset to "1fr". */
  function TemplateAfterRemoval(t: seq<string>, idx: int, hasNext: bool, hasPrev: bool): seq<string> {
    var u := Removed(t, idx);
    if hasNext then Assigned(u, idx, DEFAULT_SIZE)
    else if hasPrev then Assigned(u, idx - 1, DEFAULT_SIZE)
    else u
  }

  /**
   * With one non-empty entry per pane, removing pane `idx` leaves one
   * non-empty entry per remaining pane: entry `idx` is gone, the entry that
   * now borders the gap is "1fr", and every other entry is kept. Removing the
   * last pane leaves a template that builds to "".
   */
  lemma TemplateRemovalKeepsConsistency(t: seq<string>, idx: int, splitter: string)
    requires forall j :: 0 <= j < |t| ==> t[j] != ""
    requires 0 <= idx < |t|
    ensures var n := |t|;
            var r := TemplateAfterRemoval(t, idx, idx + 1 < n, idx > 0);
            var boundary := if idx + 1 < n then idx else idx - 1;
            && |r| == n - 1
            && (forall j :: 0 <= j < n - 1 ==> r[j] != "")
            && (n > 1 ==> r[boundary] == DEFAULT_SIZE)
            && (forall j :: 0 <= j < n - 1 && j != boundary ==> r[j] == (if j < idx then t[j] else t[j + 1]))
            && (n == 1 ==> Join(r, Separator(splitter)) == "")
  {
    var n := |t|;
    var u := Removed(t, idx);
    assert Present(t, idx);
    forall j | 0 <= j < n - 1 ensures u[j] == (if j < idx then t[j] else t[j + 1]) {
      if j < idx {
        assert u[j] == u[..idx][j];
      } else {
        assert u[j] == u[idx..][j - idx];
      }
    }
    var boundary := if idx + 1 < n then idx else idx - 1;
    if n > 1 {
      assert Present(u, boundary);
      assert TemplateAfterRemoval(t, idx, idx + 1 < n, idx > 0) == Assigned(u, boundary, DEFAULT_SIZE);
    } else {
      assert TemplateAfterRemoval(t, idx, idx + 1 < n, idx > 0) == u == [];
    }
  }

  /**
   * The invariant of a mounted element: children alternate panes and
   * splitters, and the template holds one non-empty entry per pane.
   */
  predicate LayoutConsistent(cs: seq<Node>, t: seq<string>) {
    && WellFormed(cs)
    && |t| == |Panes(cs)|
    && forall j :: 0 <= j < |t| ==> t[j] != ""
  }

  /** `removePane` on an existing pane keeps the layout invariant. */
  lemma RemovalKeepsLayoutConsistent(cs: seq<Node>, t: seq<string>, idx: nat)
    requires LayoutConsistent(cs, t) && idx < |Panes(cs)|
    ensures LayoutConsistent(ChildrenAfterRemoval(cs, PanePosition(cs, idx)),
                             TemplateAfterRemoval(t, idx, idx + 1 < |Panes(cs)|, idx > 0))
  {
    RemovalKeepsShape(cs, idx);
    TemplateRemovalKeepsConsistency(t, idx, DEFAULT_SPLITTER);
  }

  /** The children `ids.length` pane elements make when mounted directly under the element. */
  function PaneChildren(ids: seq<PaneId>): (cs: seq<Node>)
    ensures |cs| == |ids| && forall i :: 0 <= i < |ids| ==> cs[i] == Pane(ids[i])
  {
    seq(|ids|, i requires 0 <= i < |ids| => Pane(ids[i]))
  }

  /**
   * Mounting pane elements `ids` over a template that is empty, or that
   * already holds one non-empty entry per pane, establishes the layout
   * invariant that `removePane` keeps.
   */
  lemma MountEstablishesLayoutConsistent(ids: seq<PaneId>, t: seq<string>)
    requires t == [] || (|t| == |ids| && forall j :: 0 <= j < |t| ==> t[j] != "")
    ensures LayoutConsistent(Interleaved(PaneChildren(ids)), Filled(t, |ids|))
  {
    var cs := PaneChildren(ids);
    InterleavedWellFormed(cs);
    AllPanes(cs);
    if t == [] {
      FilledFromEmpty(|ids|);
    } else {
      FilledKeepsComplete(t, |ids|);
    }
  }

  /** The children after the mount-time loop: a splitter after every child but the last. */
  function Interleaved(cs: seq<Node>): (r: seq<Node>)
    ensures |r| == if |cs| == 0 then 0 else 2 * |cs| - 1
    ensures forall i :: 0 <= i < |cs| ==> r[2 * i] == cs[i]
    ensures forall i :: 0 <= i < |cs| - 1 ==> r[2 * i + 1] == Splitter
  {
    if |cs| == 0 then []
    else seq(2 * |cs| - 1, j requires 0 <= j < 2 * |cs| - 1 => if j % 2 == 0 then cs[j / 2] else Splitter)
  }

  /** Interleaving one more child appends a splitter and the child. */
  lemma InterleavedSnoc(cs: seq<Node>, c: Node)
    requires cs != []
    ensures Interleaved(cs + [c]) == Interleaved(cs) + [Splitter, c]
  {
    var a := Interleaved(cs + [c]);
    var b := Interleaved(cs) + [Splitter, c];
    assert |a| == |b|;
    forall j | 0 <= j < |a| ensures a[j] == b[j] {
      if j % 2 == 0 {
        assert a[2 * (j / 2)] == (cs + [c])[j / 2];
      } else {
        assert a[2 * (j / 2) + 1] == Splitter;
      }
    }
  }

  /** `insertAdjacentElement('afterend', splitter)` on the child at position `p`. */
  function SplitterAfter(cs: seq<Node>, p: nat): seq<Node>
    requires p < |cs|
  {
    cs[..p + 1] + [Splitter] + cs[p + 1..]
  }

  /**
   * The children after the first `idx` turns of the mount-time loop over
   * `elements`: the children visited so far, each followed by its splitter,
   * then the children not yet visited.
   */
  function MountProgress(elements: seq<Node>, idx: nat): seq<Node>
    requires idx <= |elements|
  {
    Interleaved(elements[..idx]) + (if 0 < idx < |elements| then [Splitter] else []) + elements[idx..]
  }

  /** Before the loop the children are as they were; after it they are interleaved. */
  lemma MountProgressEnds(elements: seq<Node>)
    ensures MountProgress(elements, 0) == elements
    ensures MountProgress(elements, |elements|) == Interleaved(elements)
  {
    assert elements[..0] == [] && elements[0..] == elements;
    assert elements[..|elements|] == elements && elements[|elements|..] == [];
  }

  /**
   * One turn of the mount-time loop: inserting a splitter right after child
   * `idx` (unless it is the last) advances the picture by one child.
   */
  lemma InterleaveStep(elements: seq<Node>, idx: nat)
    requires idx < |elements|
    ensures idx + 1 < |elements| ==> MountProgress(elements, idx + 1) == SplitterAfter(MountProgress(elements, idx), 2 * idx)
    ensures idx + 1 == |elements| ==> MountProgress(elements, idx + 1) == MountProgress(elements, idx)
  {
    var n := |elements|;
    var done := Interleaved(elements[..idx]) + (if 0 < idx then [Splitter] else []);
    var cur := done + elements[idx..];
    assert cur == MountProgress(elements, idx);
    assert |done| == 2 * idx;
    assert elements[..idx + 1] == elements[..idx] + [elements[idx]];
    if idx == 0 {
      assert Interleaved(elements[..1]) == [elements[0]];
    } else {
      InterleavedSnoc(elements[..idx], elements[idx]);
    }
    assert elements[idx..] == [elements[idx]] + elements[idx + 1..];
    if idx + 1 < n {
      assert cur[..2 * idx + 1] == done + [elements[idx]];
      assert cur[2 * idx + 1..] == elements[idx + 1..];
    }
  }

  /**
   * Interleaving children that are all panes gives a well-formed sequence
   * with the same panes in the same order and one splitter fewer than panes.
   */
  lemma InterleavedWellFormed(cs: seq<Node>)
    requires forall i :: 0 <= i < |cs| ==> cs[i].Pane?
    ensures WellFormed(Interleaved(cs))
    ensures Panes(Interleaved(cs)) == Panes(cs)
    ensures SplitterCount(Interleaved(cs)) == if |cs| == 0 then 0 else |cs| - 1
  {
    var r := Interleaved(cs);
    InterleavedAlternates(cs);
    InterleavedPanes(cs);
    AllPanes(cs);
  }

  /** Interleaving children that are all panes keeps the panes and their order. */
  lemma {:induction false} InterleavedPanes(cs: seq<Node>)
    requires forall i :: 0 <= i < |cs| ==> cs[i].Pane?
    ensures Panes(Interleaved(cs)) == Panes(cs)
    decreases |cs|
  {
    if |cs| == 1 {
      assert Interleaved(cs) == cs;
    } else if |cs| > 1 {
      var init, c := cs[..|cs| - 1], cs[|cs| - 1];
      assert cs == init + [c];
      InterleavedPanes(init);
      InterleavedSnoc(init, c);
      PanesAppend(Interleaved(init), [Splitter, c]);
      PanesAppend(init, [c]);
      assert [Splitter, c][1..] == [c];
    }
  }

  /** Interleaving children that are all panes alternates panes and splitters. */
  lemma InterleavedAlternates(cs: seq<Node>)
    requires forall i :: 0 <= i < |cs| ==> cs[i].Pane?
    ensures WellFormed(Interleaved(cs))
  {
    var r := Interleaved(cs);
    forall j | 0 <= j < |r| ensures r[j].Pane? <==> j % 2 == 0 {
      if j % 2 == 0 {
        assert r[2 * (j / 2)] == cs[j / 2];
      } else {
        assert r[2 * (j / 2) + 1] == Splitter;
      }
    }
  }

  /** When every child is a pane, the panes are exactly the children's ids. */
  lemma {:induction false} AllPanes(cs: seq<Node>)
    requires forall i :: 0 <= i < |cs| ==> cs[i].Pane?
    ensures |Panes(cs)| == |cs|
    ensures forall i :: 0 <= i < |cs| ==> Panes(cs)[i] == cs[i].id
    decreases |cs|
  {
    if cs != [] {
      AllPanes(cs[1..]);
    }
  }

  /**
   * The template after the mount-time loop has visited the first `k`
   * children: each index whose entry is missing or empty gets a "1fr"
   * inserted there.
   */
  function Filled(t: seq<string>, k: nat): (r: seq<string>)
    ensures |r| >= k && |r| >= |t|
    ensures forall j :: 0 <= j < k ==> r[j] != ""
  {
    if k == 0 then t
    else
      var u := Filled(t, k - 1);
      if Present(u, k - 1) then u else Inserted(u, k - 1, DEFAULT_SIZE)
  }

  /**
   * `r` is `t` with some "1fr" entries added: every entry of `t` is still
   * there, every other value occurs as often as in `t`, and the entries other
   * than "1fr" are those of `t` in their order.
   */
  ghost predicate OnlyAddsDefault(t: seq<string>, r: seq<string>) {
    && multiset(t) <= multiset(r)
    && (forall x :: x != DEFAULT_SIZE ==> multiset(r)[x] == multiset(t)[x])
    && NonDefault(r) == NonDefault(t)
  }

  /** Adding "1fr" entries twice adds "1fr" entries. */
  lemma OnlyAddsDefaultTrans(t: seq<string>, u: seq<string>, r: seq<string>)
    requires OnlyAddsDefault(t, u) && OnlyAddsDefault(u, r)
    ensures OnlyAddsDefault(t, r)
  {
  }

  /** The mount-time loop only inserts "1fr" entries. */
  lemma {:induction false} FilledKeepsEntries(t: seq<string>, k: nat)
    ensures OnlyAddsDefault(t, Filled(t, k))
  {
    if k > 0 {
      FilledKeepsEntries(t, k - 1);
      var u := Filled(t, k - 1);
      if Present(u, k - 1) {
        assert Filled(t, k) == u;
      } else {
        assert Filled(t, k) == Inserted(u, k - 1, DEFAULT_SIZE);
        InsertedKeepsEntries(u, k - 1);
        OnlyAddsDefaultTrans(t, u, Filled(t, k));
      }
    }
  }

  /** The entries of `t` other than "1fr", in their order. */
  function NonDefault(t: seq<string>): (r: seq<string>)
    ensures |r| <= |t|
    ensures forall j :: 0 <= j < |r| ==> r[j] != DEFAULT_SIZE
  {
    if t == [] then []
    else (if t[0] == DEFAULT_SIZE then [] else [t[0]]) + NonDefault(t[1..])
  }

  /** The entries other than "1fr" of a concatenation are those of its parts. */
  lemma {:induction false} NonDefaultAppend(a: seq<string>, b: seq<string>)
    ensures NonDefault(a + b) == NonDefault(a) + NonDefault(b)
    decreases |a|
  {
    if a != [] {
      assert (a + b)[1..] == a[1..] + b;
      NonDefaultAppend(a[1..], b);
    } else {
      assert a + b == b;
    }
  }

  /** Inserting "1fr" adds one "1fr" and leaves the other entries in order. */
  lemma InsertedKeepsEntries(u: seq<string>, idx: int)
    ensures OnlyAddsDefault(u, Inserted(u, idx, DEFAULT_SIZE))
  {
    var k := if idx < 0 then 0 else if idx < |u| then idx else |u|;
    var a, b := u[..k], u[k..];
    assert Inserted(u, idx, DEFAULT_SIZE) == a + [DEFAULT_SIZE] + b;
    SplitAt(u, k);
    InsertMultiset(a, DEFAULT_SIZE, b);
    InsertNonDefault(a, b);
  }

  /** Inserting `x` anywhere adds one `x` to the multiset of elements. */
  lemma InsertMultiset<T>(a: seq<T>, x: T, b: seq<T>)
    ensures multiset(a + [x] + b) == multiset(a + b) + multiset{x}
  {
  }

  /** Inserting "1fr" anywhere leaves the entries other than "1fr" as they were. */
  lemma InsertNonDefault(a: seq<string>, b: seq<string>)
    ensures NonDefault(a + [DEFAULT_SIZE] + b) == NonDefault(a + b)
  {
    NonDefaultAppend(a, [DEFAULT_SIZE]);
    NonDefaultAppend(a + [DEFAULT_SIZE], b);
    NonDefaultAppend(a, b);
    assert NonDefault([DEFAULT_SIZE]) == [];
  }

  /** A template with a non-empty entry for every child is left as it is by the mount-time loop. */
  lemma {:induction false} FilledKeepsComplete(t: seq<string>, k: nat)
    requires forall j :: 0 <= j < k ==> Present(t, j)
    ensures Filled(t, k) == t
  {
    if k > 0 {
      FilledKeepsComplete(t, k - 1);
    }
  }

  /** Mounting `k` children over a blank template gives `k` entries of "1fr". */
  lemma {:induction false} FilledFromEmpty(k: nat)
    ensures Filled([], k) == seq(k, _ => DEFAULT_SIZE)
  {
    if k > 0 {
      FilledFromEmpty(k - 1);
      assert seq(k, _ => DEFAULT_SIZE) == seq(k - 1, _ => DEFAULT_SIZE) + [DEFAULT_SIZE];
    }
  }

  /**
   * One resize step on the rounded size of the previous pane: the next pane
   * takes up what the previous one gives away, and each is clamped so that
   * neither is negative and together they keep their combined extent.
   */
  method ClampSizes(prevPaneSize0: int, prevExtent: nat, nextExtent: nat)
    returns (prevPaneSize: int, nextPaneSize: int, bothPaneSize: int)
    ensures bothPaneSize == prevExtent + nextExtent
    ensures prevPaneSize + nextPaneSize == bothPaneSize
    ensures 0 <= prevPaneSize <= bothPaneSize && 0 <= nextPaneSize <= bothPaneSize
    ensures 0 <= prevPaneSize0 <= bothPaneSize ==>
      prevPaneSize == prevPaneSize0 && prevPaneSize - prevExtent == nextExtent - nextPaneSize
    ensures prevPaneSize0 < 0 ==> prevPaneSize == 0 && nextPaneSize == bothPaneSize
    ensures prevPaneSize0 > bothPaneSize ==> prevPaneSize == bothPaneSize && nextPaneSize == 0
  {
    prevPaneSize := prevPaneSize0;
    nextPaneSize := nextExtent - (prevPaneSize - prevExtent);
    bothPaneSize := prevExtent + nextExtent;
    assert prevPaneSize + nextPaneSize == bothPaneSize;

    if prevPaneSize < 0 {
      prevPaneSize := 0;
      nextPaneSize := bothPaneSize;
    }

    if nextPaneSize < 0 {
      nextPaneSize := 0;
      prevPaneSize := bothPaneSize;
    }
  }
}
