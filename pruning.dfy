/**
 * The parsed page as a mutable object and the junk-removal pass run on it
 * before extraction: every `nav`, `header`, `footer`, `script`, `style` and
 * `aside` element is decomposed, one after another, in document order.
 */
module Pruning {
  import opened Dom
  import opened Seqs

  /** The tags removed before extraction (app.py line 43). */
  const JunkTags: set<string> := {"nav", "header", "footer", "script", "style", "aside"}

  predicate IsJunk(n: Node)
  {
    n.Element? && n.tag in JunkTags
  }

  /* ---------------- identities ---------------- */

  /** The identities of the elements of `n` (itself included), in document order. */
  function Ids(n: Node): seq<nat>
  {
    match n
    case TextNode(_) => []
    case Element(uid, _, _, _, cs) => [uid] + IdsOf(cs)
  }

  function IdsOf(cs: seq<Node>): seq<nat>
  {
    if cs == [] then [] else Ids(cs[0]) + IdsOf(cs[1..])
  }

  /** No identity occurs twice: distinct elements are distinct objects. */
  ghost predicate NoDup(s: seq<nat>)
  {
    forall x :: multiset(s)[x] <= 1
  }

  ghost predicate UniqueIds(n: Node)
  {
    NoDup(Ids(n))
  }

  lemma NoDupSplit(s: seq<nat>, t: seq<nat>)
    requires NoDup(s + t)
    ensures NoDup(s) && NoDup(t)
    ensures forall x :: x in s ==> x !in t
  {
    assert multiset(s + t) == multiset(s) + multiset(t);
    forall x | x in s ensures x !in t {
      assert multiset(s + t)[x] == multiset(s)[x] + multiset(t)[x];
    }
    forall x ensures multiset(s)[x] <= 1 && multiset(t)[x] <= 1 {
      assert multiset(s + t)[x] == multiset(s)[x] + multiset(t)[x];
    }
  }

  /** The identity of an element below `cs` is one of the identities of `cs`. */
  lemma {:induction false} DescendantIdIn(cs: seq<Node>, d: Node)
    requires d in DescendantsOf(cs)
    ensures forall x :: x in Ids(d) ==> x in IdsOf(cs)
  {
    var c := cs[0];
    if d == c {
    } else if d in Descendants(c) {
      DescendantIdIn(c.children, d);
    } else {
      DescendantIdIn(cs[1..], d);
    }
  }

  /** With unique identities, two elements of a tree with the same uid are the same element. */
  lemma {:induction false} SameIdSameNode(cs: seq<Node>, a: Node, b: Node)
    requires NoDup(IdsOf(cs))
    requires a in DescendantsOf(cs) && b in DescendantsOf(cs)
    requires a.Element? && b.Element? && a.uid == b.uid
    ensures a == b
  {
    var c, rest := cs[0], cs[1..];
    assert IdsOf(cs) == Ids(c) + IdsOf(rest);
    NoDupSplit(Ids(c), IdsOf(rest));
    assert a.uid in Ids(a) && b.uid in Ids(b);
    if a in DescendantsOf(rest) && b in DescendantsOf(rest) {
      SameIdSameNode(rest, a, b);
    } else if a in DescendantsOf(rest) || b in DescendantsOf(rest) {
      var inRest := if a in DescendantsOf(rest) then a else b;
      var inFirst := if a in DescendantsOf(rest) then b else a;
      DescendantIdIn(rest, inRest);
      if inFirst != c {
        DescendantIdIn(c.children, inFirst);
      }
      assert false;
    } else if a != b {
      assert Ids(c) == [c.uid] + IdsOf(c.children);
      NoDupSplit([c.uid], IdsOf(c.children));
      if a == c {
        DescendantIdIn(c.children, b);
        assert false;
      } else if b == c {
        DescendantIdIn(c.children, a);
        assert false;
      } else {
        SameIdSameNode(c.children, a, b);
      }
    }
  }

  /* ---------------- removal by identity ---------------- */

  /** `n` after every element whose identity is in `u` has been removed together with its subtree. */
  function DropIds(n: Node, u: set<nat>): (r: Node)
    ensures n.TextNode? ==> r == n
    ensures n.Element? ==> r.Element? && r.uid == n.uid && r.tag == n.tag && r.attrs == n.attrs && r.classes == n.classes
    ensures forall d :: d in Descendants(r) && d.Element? ==> d.uid !in u
  {
    match n
    case TextNode(_) => n
    case Element(uid, tag, attrs, classes, cs) => Element(uid, tag, attrs, classes, DropIdsOf(cs, u))
  }

  function DropIdsOf(cs: seq<Node>, u: set<nat>): (r: seq<Node>)
    ensures forall d :: d in DescendantsOf(r) && d.Element? ==> d.uid !in u
  {
    if cs == [] then []
    else if cs[0].Element? && cs[0].uid in u then DropIdsOf(cs[1..], u)
    else
      var r := [DropIds(cs[0], u)] + DropIdsOf(cs[1..], u);
      assert r[1..] == DropIdsOf(cs[1..], u);
      r
  }

  lemma {:induction false} DropNothing(n: Node)
    ensures DropIds(n, {}) == n
  {
    if n.Element? {
      DropNothingOf(n.children);
    }
  }

  lemma {:induction false} DropNothingOf(cs: seq<Node>)
    ensures DropIdsOf(cs, {}) == cs
  {
    if cs != [] {
      DropNothing(cs[0]);
      DropNothingOf(cs[1..]);
    }
  }

  /** Removing the elements of `a`, then those of `b`, is removing those of `a + b`. */
  lemma {:induction false} DropIdsTwice(n: Node, a: set<nat>, b: set<nat>)
    ensures DropIds(DropIds(n, a), b) == DropIds(n, a + b)
  {
    if n.Element? {
      DropIdsOfTwice(n.children, a, b);
    }
  }

  lemma {:induction false} DropIdsOfTwice(cs: seq<Node>, a: set<nat>, b: set<nat>)
    ensures DropIdsOf(DropIdsOf(cs, a), b) == DropIdsOf(cs, a + b)
  {
    if cs != [] {
      DropIdsOfTwice(cs[1..], a, b);
      if !(cs[0].Element? && cs[0].uid in a) {
        DropIdsTwice(cs[0], a, b);
        assert DropIdsOf(cs, a) == [DropIds(cs[0], a)] + DropIdsOf(cs[1..], a);
        assert DropIdsOf(cs, a)[1..] == DropIdsOf(cs[1..], a);
      }
    }
  }

  /** Removing elements never introduces an identity: the remaining ones are a sub-multiset. */
  lemma {:induction false} DropIdsIdsSub(n: Node, u: set<nat>)
    ensures multiset(Ids(DropIds(n, u))) <= multiset(Ids(n))
  {
    if n.Element? {
      DropIdsOfIdsSub(n.children, u);
    }
  }

  lemma {:induction false} DropIdsOfIdsSub(cs: seq<Node>, u: set<nat>)
    ensures multiset(IdsOf(DropIdsOf(cs, u))) <= multiset(IdsOf(cs))
  {
    if cs != [] {
      DropIdsOfIdsSub(cs[1..], u);
      assert IdsOf(cs) == Ids(cs[0]) + IdsOf(cs[1..]);
      if !(cs[0].Element? && cs[0].uid in u) {
        DropIdsIdsSub(cs[0], u);
        var d := DropIdsOf(cs, u);
        assert d == [DropIds(cs[0], u)] + DropIdsOf(cs[1..], u);
        assert d[1..] == DropIdsOf(cs[1..], u);
        assert IdsOf(d) == Ids(DropIds(cs[0], u)) + IdsOf(DropIdsOf(cs[1..], u));
      }
    }
  }

  lemma DropIdsKeepsUnique(n: Node, u: set<nat>)
    requires UniqueIds(n)
    ensures UniqueIds(DropIds(n, u))
  {
    DropIdsIdsSub(n, u);
    forall x ensures multiset(Ids(DropIds(n, u)))[x] <= 1 {
      assert multiset(Ids(DropIds(n, u)))[x] <= multiset(Ids(n))[x];
    }
  }

  /** An element whose identity is listed for removal. */
  predicate Removed(d: Node, u: set<nat>)
  {
    d.Element? && d.uid in u
  }

  /** Removing elements keeps identities: every element left was already in the list. */
  lemma DroppedIdsIn(cs: seq<Node>, u: set<nat>)
    ensures forall x :: x in IdsOf(DropIdsOf(cs, u)) ==> x in IdsOf(cs)
  {
    DropIdsOfIdsSub(cs, u);
    forall x | x in IdsOf(DropIdsOf(cs, u)) ensures x in IdsOf(cs) {
      assert multiset(IdsOf(DropIdsOf(cs, u)))[x] > 0;
    }
  }

  /**
   * An element inside a removed subtree does not survive removal: if it did,
   * its identity would occur twice.
   */
  lemma {:induction false} RemovedSubtreeGoneOf(cs: seq<Node>, u: set<nat>, j: Node, x: nat)
    requires j in DescendantsOf(cs) && Removed(j, u) && x in Ids(j)
    requires x in IdsOf(DropIdsOf(cs, u))
    ensures multiset(IdsOf(cs))[x] >= 2
  {
    var c, rest := cs[0], cs[1..];
    var p := DropIdsOf(cs, u);
    assert IdsOf(cs) == Ids(c) + IdsOf(rest);
    assert DescendantsOf(cs[..1]) == [c] + Descendants(c);
    assert IdsOf(cs[..1]) == Ids(c);
    if Removed(c, u) {
      assert p == DropIdsOf(rest, u);
      if j in DescendantsOf(rest) {
        RemovedSubtreeGoneOf(rest, u, j, x);
      } else {
        DescendantIdIn(cs[..1], j);
        DroppedIdsIn(rest, u);
      }
    } else {
      assert p[1..] == DropIdsOf(rest, u);
      assert IdsOf(p) == Ids(DropIds(c, u)) + IdsOf(DropIdsOf(rest, u));
      if x in IdsOf(DropIdsOf(rest, u)) {
        if j in DescendantsOf(rest) {
          RemovedSubtreeGoneOf(rest, u, j, x);
        } else {
          DescendantIdIn(cs[..1], j);
          DroppedIdsIn(rest, u);
        }
      } else {
        assert c.Element?;
        assert x in Ids(DropIds(c, u));
        assert Ids(c) == [c.uid] + IdsOf(c.children);
        assert Ids(DropIds(c, u)) == [c.uid] + IdsOf(DropIdsOf(c.children, u));
        if j in DescendantsOf(rest) {
          DescendantIdIn(rest, j);
          DroppedIdsIn(c.children, u);
        } else if j == c {
          assert false;
        } else {
          assert j in DescendantsOf(c.children);
          if x == c.uid {
            DescendantIdIn(c.children, j);
            assert multiset(Ids(c))[x] >= 2;
          } else {
            RemovedSubtreeGoneOf(c.children, u, j, x);
            assert multiset(Ids(c)) == multiset([c.uid]) + multiset(IdsOf(c.children));
          }
        }
      }
    }
  }

  /**
   * With unique identities, removing an element removes its whole subtree:
   * no element of it (itself or any descendant) is left.
   */
  lemma RemovedSubtreeGone(n: Node, u: set<nat>, j: Node)
    requires n.Element? && UniqueIds(n)
    requires j in Descendants(n) && Removed(j, u)
    ensures forall x :: x in Ids(j) ==> x !in Ids(DropIds(n, u))
  {
    assert Ids(n) == [n.uid] + IdsOf(n.children);
    assert Ids(DropIds(n, u)) == [n.uid] + IdsOf(DropIdsOf(n.children, u));
    NoDupSplit([n.uid], IdsOf(n.children));
    forall x | x in Ids(j) ensures x !in Ids(DropIds(n, u)) {
      DescendantIdIn(n.children, j);
      if x in IdsOf(DropIdsOf(n.children, u)) {
        RemovedSubtreeGoneOf(n.children, u, j, x);
      }
    }
  }

  /**
   * Everything outside the removed subtrees stays: a node that is not removed
   * and lies under no removed element is still in the tree, itself with the
   * removed elements below it cut out.
   */
  lemma {:induction false} OutsideRemovedSurvives(n: Node, u: set<nat>, c: Node)
    requires c in Descendants(n) && !Removed(c, u)
    requires forall j :: j in Descendants(n) && Removed(j, u) ==> c !in Descendants(j)
    ensures DropIds(c, u) in Descendants(DropIds(n, u))
  {
    OutsideRemovedSurvivesOf(n.children, u, c);
  }

  lemma {:induction false} OutsideRemovedSurvivesOf(cs: seq<Node>, u: set<nat>, c: Node)
    requires c in DescendantsOf(cs) && !Removed(c, u)
    requires forall j :: j in DescendantsOf(cs) && Removed(j, u) ==> c !in Descendants(j)
    ensures DropIds(c, u) in DescendantsOf(DropIdsOf(cs, u))
  {
    var h, rest := cs[0], cs[1..];
    assert DescendantsOf(cs) == [h] + Descendants(h) + DescendantsOf(rest);
    if c == h || c in Descendants(h) {
      assert !Removed(h, u);
      var p := DropIdsOf(cs, u);
      assert p == [DropIds(h, u)] + DropIdsOf(rest, u);
      assert DescendantsOf(p) == [DropIds(h, u)] + Descendants(DropIds(h, u)) + DescendantsOf(DropIdsOf(rest, u)) by {
        assert p[0] == DropIds(h, u) && p[1..] == DropIdsOf(rest, u);
      }
      if c != h {
        OutsideRemovedSurvivesOf(h.children, u, c);
      }
    } else {
      OutsideRemovedSurvivesOf(rest, u, c);
      if !Removed(h, u) {
        var p := DropIdsOf(cs, u);
        assert p[1..] == DropIdsOf(rest, u);
      }
    }
  }

  /**
   * Removing by identity never touches a text leaf: the text children of an
   * element are, with their multiplicities, the text children it had.
   */
  lemma DropIdsKeepsTextChildren(e: Node, u: set<nat>)
    requires e.Element?
    ensures forall t: Node :: t.TextNode? ==> multiset(DropIds(e, u).children)[t] == multiset(e.children)[t]
  {
    DropIdsOfKeepsText(e.children, u);
  }

  lemma {:induction false} DropIdsOfKeepsText(cs: seq<Node>, u: set<nat>)
    ensures forall t: Node :: t.TextNode? ==> multiset(DropIdsOf(cs, u))[t] == multiset(cs)[t]
  {
    if cs != [] {
      DropIdsOfKeepsText(cs[1..], u);
      assert cs == [cs[0]] + cs[1..];
      if !Removed(cs[0], u) {
        assert DropIdsOf(cs, u) == [DropIds(cs[0], u)] + DropIdsOf(cs[1..], u);
      }
    }
  }

  /**
   * Removing never reorders: the identities and the text leaves left are
   * subsequences of the original ones.
   */
  lemma {:induction false} DropIdsKeepsOrder(n: Node, u: set<nat>)
    ensures IsSubseq(Ids(DropIds(n, u)), Ids(n))
    ensures IsSubseq(TextPieces(DropIds(n, u)), TextPieces(n))
  {
    if n.Element? {
      DropIdsOfKeepsOrder(n.children, u);
      assert Ids(DropIds(n, u)) == [n.uid] + IdsOf(DropIdsOf(n.children, u));
      assert Ids(n) == [n.uid] + IdsOf(n.children);
      assert IsSubseq([n.uid], [n.uid]);
      SubseqAppend([n.uid], [n.uid], IdsOf(DropIdsOf(n.children, u)), IdsOf(n.children));
    } else {
      assert Ids(DropIds(n, u)) == [];
      SubseqEmpty(Ids(n));
      assert IsSubseq(TextPieces(n), TextPieces(n)) by {
        assert TextPieces(n) == [n.text];
        assert IsSubseq([n.text][1..], [n.text][1..]);
      }
    }
  }

  lemma {:induction false} DropIdsOfKeepsOrder(cs: seq<Node>, u: set<nat>)
    ensures IsSubseq(IdsOf(DropIdsOf(cs, u)), IdsOf(cs))
    ensures IsSubseq(TextPiecesOf(DropIdsOf(cs, u)), TextPiecesOf(cs))
  {
    if cs != [] {
      DropIdsOfKeepsOrder(cs[1..], u);
      assert IdsOf(cs) == Ids(cs[0]) + IdsOf(cs[1..]);
      assert TextPiecesOf(cs) == TextPieces(cs[0]) + TextPiecesOf(cs[1..]);
      var p := DropIdsOf(cs, u);
      if Removed(cs[0], u) {
        assert [] + IdsOf(p) == IdsOf(p);
        assert [] + TextPiecesOf(p) == TextPiecesOf(p);
        SubseqEmpty(Ids(cs[0]));
        SubseqEmpty(TextPieces(cs[0]));
        SubseqAppend([], Ids(cs[0]), IdsOf(p), IdsOf(cs[1..]));
        SubseqAppend([], TextPieces(cs[0]), TextPiecesOf(p), TextPiecesOf(cs[1..]));
      } else {
        DropIdsKeepsOrder(cs[0], u);
        assert p[1..] == DropIdsOf(cs[1..], u);
        assert IdsOf(p) == Ids(DropIds(cs[0], u)) + IdsOf(DropIdsOf(cs[1..], u));
        assert TextPiecesOf(p) == TextPieces(DropIds(cs[0], u)) + TextPiecesOf(DropIdsOf(cs[1..], u));
        SubseqAppend(Ids(DropIds(cs[0], u)), Ids(cs[0]), IdsOf(DropIdsOf(cs[1..], u)), IdsOf(cs[1..]));
        SubseqAppend(TextPieces(DropIds(cs[0], u)), TextPieces(cs[0]),
                     TextPiecesOf(DropIdsOf(cs[1..], u)), TextPiecesOf(cs[1..]));
      }
    }
  }

  /* ---------------- removal by tag (the reference) ---------------- */

  /**
   * `n` with every junk element removed together with its subtree; everything
   * else in place. The root is kept as it is and no junk is left below it.
   */
  function PruneByTag(n: Node): (r: Node)
    ensures n.TextNode? ==> r == n
    ensures n.Element? ==> r.Element? && r.uid == n.uid && r.tag == n.tag && r.attrs == n.attrs && r.classes == n.classes
    ensures forall d :: d in Descendants(r) ==> !IsJunk(d)
  {
    match n
    case TextNode(_) => n
    case Element(uid, tag, attrs, classes, cs) => Element(uid, tag, attrs, classes, PruneOf(cs))
  }

  function PruneOf(cs: seq<Node>): (r: seq<Node>)
    ensures forall d :: d in DescendantsOf(r) ==> !IsJunk(d)
  {
    if cs == [] then []
    else if IsJunk(cs[0]) then PruneOf(cs[1..])
    else
      var r := [PruneByTag(cs[0])] + PruneOf(cs[1..]);
      assert r[1..] == PruneOf(cs[1..]);
      r
  }

  /** The identities of the elements in a list of nodes. */
  function UidSet(ns: seq<Node>): set<nat>
  {
    set d | d in ns && d.Element? :: d.uid
  }

  /** One more element listed: its identity joins the set. */
  lemma UidSetStep(ns: seq<Node>, i: nat)
    requires i < |ns| && ns[i].Element?
    ensures UidSet(ns[..i + 1]) == UidSet(ns[..i]) + {ns[i].uid}
  {
    assert ns[..i + 1] == ns[..i] + [ns[i]];
  }

  /** The identities of the junk elements below `n`. */
  function JunkIds(n: Node): set<nat>
  {
    UidSet(FindAll(n, ByTags(JunkTags)))
  }

  /** Removing by identity agrees with removing by tag when identity tells junk from the rest. */
  lemma {:induction false} DropAgreesOf(cs: seq<Node>, u: set<nat>)
    requires forall d :: d in DescendantsOf(cs) && d.Element? ==> (d.uid in u <==> IsJunk(d))
    ensures DropIdsOf(cs, u) == PruneOf(cs)
  {
    if cs != [] {
      DropAgreesOf(cs[1..], u);
      if !IsJunk(cs[0]) && cs[0].Element? {
        assert DescendantsOf(cs) == [cs[0]] + DescendantsOf(cs[0].children) + DescendantsOf(cs[1..]);
        DropAgreesOf(cs[0].children, u);
      }
    }
  }

  /**
   * Decomposing the listed junk elements one by one, as the source does, gives
   * exactly the tree with every junk subtree cut out, provided element
   * identities are unique (which parsing guarantees).
   */
  lemma DropJunkIsPrune(n: Node)
    requires n.Element? && UniqueIds(n)
    ensures DropIds(n, JunkIds(n)) == PruneByTag(n)
  {
    assert Ids(n) == [n.uid] + IdsOf(n.children);
    NoDupSplit([n.uid], IdsOf(n.children));
    forall d | d in DescendantsOf(n.children) && d.Element?
      ensures d.uid in JunkIds(n) <==> IsJunk(d)
    {
      if d.uid in JunkIds(n) {
        var j :| j in FindAll(n, ByTags(JunkTags)) && j.Element? && j.uid == d.uid;
        SameIdSameNode(n.children, d, j);
      }
    }
    DropAgreesOf(n.children, JunkIds(n));
  }

  /** A tree with no junk in it is left exactly as it is. */
  lemma {:induction false} PruneJunkFree(n: Node)
    requires forall d :: d in Descendants(n) ==> !IsJunk(d)
    ensures PruneByTag(n) == n
  {
    if n.Element? {
      PruneOfJunkFree(n.children);
    }
  }

  lemma {:induction false} PruneOfJunkFree(cs: seq<Node>)
    requires forall d :: d in DescendantsOf(cs) ==> !IsJunk(d)
    ensures PruneOf(cs) == cs
  {
    if cs != [] {
      assert DescendantsOf(cs) == [cs[0]] + Descendants(cs[0]) + DescendantsOf(cs[1..]);
      PruneJunkFree(cs[0]);
      PruneOfJunkFree(cs[1..]);
      assert [cs[0]] + cs[1..] == cs;
    }
  }

  /**
   * Everything outside the junk subtrees survives: a node that is not junk
   * and lies in no junk subtree is still in the pruned tree, itself pruned of
   * the junk below it.
   */
  lemma {:induction false} OutsideJunkSurvives(n: Node, c: Node)
    requires c in Descendants(n) && !IsJunk(c)
    requires forall j :: j in Descendants(n) && IsJunk(j) ==> c !in Descendants(j)
    ensures PruneByTag(c) in Descendants(PruneByTag(n))
  {
    OutsideJunkSurvivesOf(n.children, c);
  }

  lemma {:induction false} OutsideJunkSurvivesOf(cs: seq<Node>, c: Node)
    requires c in DescendantsOf(cs) && !IsJunk(c)
    requires forall j :: j in DescendantsOf(cs) && IsJunk(j) ==> c !in Descendants(j)
    ensures PruneByTag(c) in DescendantsOf(PruneOf(cs))
  {
    var h, rest := cs[0], cs[1..];
    assert DescendantsOf(cs) == [h] + Descendants(h) + DescendantsOf(rest);
    if c == h || c in Descendants(h) {
      assert !IsJunk(h);
      var p := PruneOf(cs);
      assert p == [PruneByTag(h)] + PruneOf(rest);
      assert DescendantsOf(p) == [PruneByTag(h)] + Descendants(PruneByTag(h)) + DescendantsOf(PruneOf(rest)) by {
        assert p[0] == PruneByTag(h) && p[1..] == PruneOf(rest);
      }
      if c != h {
        OutsideJunkSurvivesOf(h.children, c);
      }
    } else {
      OutsideJunkSurvivesOf(rest, c);
      if !IsJunk(h) {
        var p := PruneOf(cs);
        assert p[1..] == PruneOf(rest);
      }
    }
  }

  /**
   * Pruning never touches a text leaf: the text children of an element are,
   * with their multiplicities, the text children it had.
   */
  lemma PruneKeepsTextChildren(e: Node)
    requires e.Element?
    ensures forall t: Node :: t.TextNode? ==> multiset(PruneByTag(e).children)[t] == multiset(e.children)[t]
  {
    PruneOfKeepsText(e.children);
  }

  lemma {:induction false} PruneOfKeepsText(cs: seq<Node>)
    ensures forall t: Node :: t.TextNode? ==> multiset(PruneOf(cs))[t] == multiset(cs)[t]
  {
    if cs != [] {
      PruneOfKeepsText(cs[1..]);
      assert cs == [cs[0]] + cs[1..];
      if !IsJunk(cs[0]) {
        assert PruneOf(cs) == [PruneByTag(cs[0])] + PruneOf(cs[1..]);
      }
    }
  }

  /** Pruning keeps identities: every element left was already in the tree. */
  lemma {:induction false} PrunedIdsIn(cs: seq<Node>)
    ensures forall x :: x in IdsOf(PruneOf(cs)) ==> x in IdsOf(cs)
  {
    if cs != [] {
      PrunedIdsIn(cs[1..]);
      assert IdsOf(cs) == Ids(cs[0]) + IdsOf(cs[1..]);
      if !IsJunk(cs[0]) {
        var p := PruneOf(cs);
        assert p[1..] == PruneOf(cs[1..]);
        assert IdsOf(p) == Ids(PruneByTag(cs[0])) + IdsOf(PruneOf(cs[1..]));
        if cs[0].Element? {
          PrunedIdsIn(cs[0].children);
        }
      }
    }
  }

  /**
   * An element that lies inside a junk subtree does not survive pruning, when
   * it is some other element with the same identity would make that identity
   * occur twice.
   */
  lemma {:induction false} JunkSubtreeGoneOf(cs: seq<Node>, j: Node, x: nat)
    requires j in DescendantsOf(cs) && IsJunk(j) && x in Ids(j)
    requires x in IdsOf(PruneOf(cs))
    ensures multiset(IdsOf(cs))[x] >= 2
  {
    var c, rest := cs[0], cs[1..];
    var p := PruneOf(cs);
    assert IdsOf(cs) == Ids(c) + IdsOf(rest);
    assert DescendantsOf(cs[..1]) == [c] + Descendants(c);
    assert IdsOf(cs[..1]) == Ids(c);
    if IsJunk(c) {
      assert p == PruneOf(rest);
      if j in DescendantsOf(rest) {
        JunkSubtreeGoneOf(rest, j, x);
      } else {
        DescendantIdIn(cs[..1], j);
        PrunedIdsIn(rest);
      }
    } else {
      assert p[1..] == PruneOf(rest);
      assert IdsOf(p) == Ids(PruneByTag(c)) + IdsOf(PruneOf(rest));
      if x in IdsOf(PruneOf(rest)) {
        if j in DescendantsOf(rest) {
          JunkSubtreeGoneOf(rest, j, x);
        } else {
          DescendantIdIn(cs[..1], j);
          PrunedIdsIn(rest);
        }
      } else {
        assert c.Element?;
        assert x in Ids(PruneByTag(c));
        assert Ids(c) == [c.uid] + IdsOf(c.children);
        assert Ids(PruneByTag(c)) == [c.uid] + IdsOf(PruneOf(c.children));
        if j in DescendantsOf(rest) {
          DescendantIdIn(rest, j);
          PrunedIdsIn(c.children);
        } else if j == c {
          assert false;
        } else {
          assert j in DescendantsOf(c.children);
          if x == c.uid {
            DescendantIdIn(c.children, j);
            assert multiset(Ids(c))[x] >= 2;
          } else {
            JunkSubtreeGoneOf(c.children, j, x);
            assert multiset(Ids(c)) == multiset([c.uid]) + multiset(IdsOf(c.children));
          }
        }
      }
    }
  }

  /**
   * With unique identities, no element of a junk subtree (the junk element
   * itself or any of its descendants) is left after pruning.
   */
  lemma JunkSubtreeGone(n: Node, j: Node)
    requires n.Element? && UniqueIds(n)
    requires j in Descendants(n) && IsJunk(j)
    ensures forall x :: x in Ids(j) ==> x !in Ids(PruneByTag(n))
  {
    assert Ids(n) == [n.uid] + IdsOf(n.children);
    assert Ids(PruneByTag(n)) == [n.uid] + IdsOf(PruneOf(n.children));
    NoDupSplit([n.uid], IdsOf(n.children));
    forall x | x in Ids(j) ensures x !in Ids(PruneByTag(n)) {
      DescendantIdIn(n.children, j);
      if x in IdsOf(PruneOf(n.children)) {
        JunkSubtreeGoneOf(n.children, j, x);
      }
    }
  }

  /**
   * Pruning never reorders or invents anything: the identities and the text
   * leaves left are subsequences of the original ones.
   */
  lemma {:induction false} PruneKeepsOrder(n: Node)
    ensures IsSubseq(Ids(PruneByTag(n)), Ids(n))
    ensures IsSubseq(TextPieces(PruneByTag(n)), TextPieces(n))
  {
    if n.Element? {
      PruneOfKeepsOrder(n.children);
      assert Ids(PruneByTag(n)) == [n.uid] + IdsOf(PruneOf(n.children));
      assert Ids(n) == [n.uid] + IdsOf(n.children);
      assert IsSubseq([n.uid], [n.uid]);
      SubseqAppend([n.uid], [n.uid], IdsOf(PruneOf(n.children)), IdsOf(n.children));
    } else {
      assert Ids(PruneByTag(n)) == [];
      SubseqEmpty(Ids(n));
      assert IsSubseq(TextPieces(n), TextPieces(n)) by {
        assert TextPieces(n) == [n.text];
        assert IsSubseq([n.text][1..], [n.text][1..]);
      }
    }
  }

  lemma {:induction false} PruneOfKeepsOrder(cs: seq<Node>)
    ensures IsSubseq(IdsOf(PruneOf(cs)), IdsOf(cs))
    ensures IsSubseq(TextPiecesOf(PruneOf(cs)), TextPiecesOf(cs))
  {
    if cs != [] {
      PruneOfKeepsOrder(cs[1..]);
      assert IdsOf(cs) == Ids(cs[0]) + IdsOf(cs[1..]);
      assert TextPiecesOf(cs) == TextPieces(cs[0]) + TextPiecesOf(cs[1..]);
      var p := PruneOf(cs);
      if IsJunk(cs[0]) {
        assert [] + IdsOf(p) == IdsOf(p);
        assert [] + TextPiecesOf(p) == TextPiecesOf(p);
        SubseqEmpty(Ids(cs[0]));
        SubseqEmpty(TextPieces(cs[0]));
        SubseqAppend([], Ids(cs[0]), IdsOf(p), IdsOf(cs[1..]));
        SubseqAppend([], TextPieces(cs[0]), TextPiecesOf(p), TextPiecesOf(cs[1..]));
      } else {
        PruneKeepsOrder(cs[0]);
        assert p[1..] == PruneOf(cs[1..]);
        assert IdsOf(p) == Ids(PruneByTag(cs[0])) + IdsOf(PruneOf(cs[1..]));
        assert TextPiecesOf(p) == TextPieces(PruneByTag(cs[0])) + TextPiecesOf(PruneOf(cs[1..]));
        SubseqAppend(Ids(PruneByTag(cs[0])), Ids(cs[0]), IdsOf(PruneOf(cs[1..])), IdsOf(cs[1..]));
        SubseqAppend(TextPieces(PruneByTag(cs[0])), TextPieces(cs[0]),
                     TextPiecesOf(PruneOf(cs[1..])), TextPiecesOf(cs[1..]));
      }
    }
  }

  /* ---------------- parsing ---------------- */

  /** The integers `lo, lo + 1, ..., hi - 1`. */
  function Range(lo: nat, hi: nat): seq<nat>
    decreases hi - lo
  {
    if lo >= hi then [] else [lo] + Range(lo + 1, hi)
  }

  lemma {:induction false} RangeAppend(a: nat, b: nat, c: nat)
    requires a <= b <= c
    ensures Range(a, b) + Range(b, c) == Range(a, c)
    decreases b - a
  {
    if a < b {
      RangeAppend(a + 1, b, c);
    }
  }

  lemma {:induction false} RangeBounds(lo: nat, hi: nat)
    ensures forall x :: x in Range(lo, hi) ==> lo <= x < hi
    decreases hi - lo
  {
    if lo < hi {
      RangeBounds(lo + 1, hi);
    }
  }

  lemma {:induction false} RangeNoDup(lo: nat, hi: nat)
    ensures NoDup(Range(lo, hi))
    decreases hi - lo
  {
    if lo < hi {
      RangeNoDup(lo + 1, hi);
      RangeBounds(lo + 1, hi);
      var rest := Range(lo + 1, hi);
      assert Range(lo, hi) == [lo] + rest;
      assert multiset(Range(lo, hi)) == multiset{lo} + multiset(rest);
      assert lo !in rest;
      forall x ensures multiset(Range(lo, hi))[x] <= 1 {
        assert multiset(Range(lo, hi))[x] == multiset{lo}[x] + multiset(rest)[x];
      }
    }
  }

  /** `n` with every identity blanked: the page's shape, tags, attributes, classes and text only. */
  function EraseIds(n: Node): Node
  {
    match n
    case TextNode(_) => n
    case Element(_, tag, attrs, classes, cs) => Element(0, tag, attrs, classes, EraseIdsOf(cs))
  }

  function EraseIdsOf(cs: seq<Node>): seq<Node>
  {
    if cs == [] then [] else [EraseIds(cs[0])] + EraseIdsOf(cs[1..])
  }

  /**
   * `n` with its elements given the identities `next, next + 1, ...` in
   * document order, and nothing else changed.
   */
  function Number(n: Node, next: nat): (r: (Node, nat))
    ensures next <= r.1 && Ids(r.0) == Range(next, r.1)
    ensures EraseIds(r.0) == EraseIds(n)
  {
    match n
    case TextNode(_) => (n, next)
    case Element(_, tag, attrs, classes, cs) =>
      var (kids, after) := NumberOf(cs, next + 1);
      (Element(next, tag, attrs, classes, kids), after)
  }

  function NumberOf(cs: seq<Node>, next: nat): (r: (seq<Node>, nat))
    ensures next <= r.1 && IdsOf(r.0) == Range(next, r.1)
    ensures |r.0| == |cs| && EraseIdsOf(r.0) == EraseIdsOf(cs)
  {
    if cs == [] then ([], next)
    else
      var (first, mid) := Number(cs[0], next);
      var (rest, after) := NumberOf(cs[1..], mid);
      RangeAppend(next, mid, after);
      assert ([first] + rest)[1..] == rest;
      ([first] + rest, after)
  }

  /**
   * `BeautifulSoup(content, 'html.parser')`: the document object (identity 0)
   * holding the top-level nodes, each element a fresh object. Apart from the
   * identities, the tree is the given one.
   */
  function Parse(doc: seq<Node>): (r: Node)
    ensures r.Element? && r.uid == 0 && r.tag == "[document]" && UniqueIds(r)
    ensures EraseIdsOf(r.children) == EraseIdsOf(doc)
  {
    var (kids, after) := NumberOf(doc, 1);
    RangeAppend(0, 1, after);
    RangeNoDup(0, after);
    Element(0, "[document]", map[], [], kids)
  }

  /** The parsed page, which the junk pass updates in place. */
  /** An element listed below the root of a tree with unique identities does not share the root's identity. */
  lemma JunkBelowRoot(n: Node, j: Node)
    requires n.Element? && UniqueIds(n)
    requires j in FindAll(n, ByTags(JunkTags))
    ensures j.Element? && j.uid != n.uid
  {
    assert Ids(n) == [n.uid] + IdsOf(n.children);
    NoDupSplit([n.uid], IdsOf(n.children));
    DescendantIdIn(n.children, j);
    assert j.uid in Ids(j);
  }

  class Soup {
    var root: Node

    ghost predicate Valid()
      reads this
    {
      root.Element? && UniqueIds(root)
    }

    constructor (doc: seq<Node>)
      ensures Valid() && root == Parse(doc)
    {
      root := Parse(doc);
    }

    /**
     * `element.decompose()`: cut the element with identity `uid` (if still
     * present) out of the tree. The element is one found below the root,
     * never the document object itself.
     */
    method Decompose(uid: nat)
      requires Valid() && uid != root.uid
      modifies this
      ensures Valid()
      ensures root == DropIds(old(root), {uid})
    {
      DropIdsKeepsUnique(root, {uid});
      root := DropIds(root, {uid});
    }

    /**
     * `for basura in soup([...junk tags...]): basura.decompose()`: list the junk
     * elements in document order, then decompose each. The result is the tree
     * with every junk subtree removed and all other nodes in place.
     */
    method PruneJunk()
      requires Valid()
      modifies this
      ensures Valid()
      ensures root == PruneByTag(old(root))
    {
      var junk := FindAll(root, ByTags(JunkTags));
      ghost var start := root;
      DropNothing(start);
      assert UidSet(junk[..0]) == {};
      for i := 0 to |junk|
        invariant Valid()
        invariant root == DropIds(start, UidSet(junk[..i]))
      {
        assert junk[i] in junk;
        JunkBelowRoot(start, junk[i]);
        Decompose(junk[i].uid);
        DropIdsTwice(start, UidSet(junk[..i]), {junk[i].uid});
        UidSetStep(junk, i);
      }
      assert junk[..|junk|] == junk;
      DropJunkIsPrune(start);
    }
  }
}
