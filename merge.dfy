/** The recursive merge of a generated metadata fragment into an entity's
    existing XML (`xml_merge`, preservica_modify/pres_modify.py:96-122), as a
    function on trees, with its additivity and text rules proved. */
module TreeMerge {
  import opened Base
  import opened Xml

  /** What the merge consults besides the two trees: `self.blank_override` and
      `self.xnames`, the `{ns}local` names of the current template's mapped fields. */
  datatype Policy = Policy(blankOverride: bool, xnames: seq<string>)

  /** `find('./' + tag)`: the index of the first child with tag `t`, or `|kids|`
      when there is none. */
  function FindTag(kids: seq<Node>, t: QName): (i: nat)
    ensures i <= |kids|
    ensures i < |kids| ==> kids[i].tag == t
    ensures forall j :: 0 <= j < i ==> kids[j].tag != t
  {
    if kids == [] then 0 else if kids[0].tag == t then 0 else 1 + FindTag(kids[1..], t)
  }

  /** The text an existing target child ends with, given the source child's text. */
  function MergedText(target: Option<string>, source: Option<string>, tag: QName, p: Policy): Option<string>
  {
    if target.Some? then
      if TextTruthy(source) then source
      else if p.blankOverride && Clark(tag) in p.xnames then None
      else target
    else if TextTruthy(source) then source else None
  }

  /** `ET.SubElement(xml_a, b_child.tag)` with the source text when it is non-empty. */
  function NewChild(c: Node): Node
  {
    Node(c.tag, if TextTruthy(c.text) then c.text else None, [])
  }

  /** Recursion into a child happens only when the source child has children. */
  function MergeChild(k: Node, c: Node, p: Policy): (r: Node)
    ensures r.tag == k.tag && r.text == k.text
    decreases c, 2, 0
  {
    if c.children != [] then Merge(k, c, p) else k
  }

  /** An existing target child after the source child `c` is merged into it. */
  function Updated(k: Node, c: Node, p: Policy): (r: Node)
    ensures r.tag == k.tag && r.text == MergedText(k.text, c.text, c.tag, p)
    decreases c, 3, 0
  {
    MergeChild(k.(text := MergedText(k.text, c.text, c.tag, p)), c, p)
  }

  /** The child appended for a source child `c` with no same-tagged target child. */
  function Created(c: Node, p: Policy): (r: Node)
    ensures r.tag == c.tag && r.text == NewChild(c).text
    decreases c, 3, 0
  {
    MergeChild(NewChild(c), c, p)
  }

  /** One iteration of the loop over the source's children. */
  function MergeOne(kids: seq<Node>, c: Node, p: Policy): seq<Node>
    decreases c, 4, 0
  {
    var i := FindTag(kids, c.tag);
    if i < |kids| then kids[i := Updated(kids[i], c, p)] else kids + [Created(c, p)]
  }

  /** The merge of `b`'s children into `a`: the roots themselves are not compared
      and keep `a`'s tag and text. */
  function Merge(a: Node, b: Node, p: Policy): Node
    decreases b, 1, 0
  {
    a.(children := MergeKids(a.children, b, 0, p))
  }

  /** The loop from the `j`-th source child on, the target children being `kids`. */
  function MergeKids(kids: seq<Node>, b: Node, j: nat, p: Policy): seq<Node>
    requires j <= |b.children|
    decreases b, 0, |b.children| - j
  {
    if j == |b.children| then kids else MergeKids(MergeOne(kids, b.children[j], p), b, j + 1, p)
  }

  // ---------------------------------------------------------------------------
  // Additivity: nothing is removed or reordered, at any depth.

  /** `y` holds every element of `x`, at the same positions and with the same
      tags (texts may differ, children may have been added after). */
  predicate Embeds(x: Node, y: Node)
  {
    x.tag == y.tag && |x.children| <= |y.children| &&
    forall i :: 0 <= i < |x.children| ==> Embeds(x.children[i], y.children[i])
  }

  predicate KidsEmbed(xs: seq<Node>, ys: seq<Node>)
  {
    |xs| <= |ys| && forall i :: 0 <= i < |xs| ==> Embeds(xs[i], ys[i])
  }

  /** Number of elements of a tree. */
  function Size(n: Node): nat
    decreases n, 1
  {
    1 + SizeFrom(n, 0)
  }

  function SizeFrom(n: Node, i: nat): nat
    requires i <= |n.children|
    decreases n, 0, |n.children| - i
  {
    if i == |n.children| then 0 else Size(n.children[i]) + SizeFrom(n, i + 1)
  }

  lemma {:induction false} EmbedsRefl(x: Node)
    ensures Embeds(x, x)
    decreases x
  {
    forall i | 0 <= i < |x.children| ensures Embeds(x.children[i], x.children[i]) {
      EmbedsRefl(x.children[i]);
    }
  }

  lemma {:induction false} EmbedsTrans(x: Node, y: Node, z: Node)
    requires Embeds(x, y) && Embeds(y, z)
    ensures Embeds(x, z)
    decreases x
  {
    forall i | 0 <= i < |x.children| ensures Embeds(x.children[i], z.children[i]) {
      EmbedsTrans(x.children[i], y.children[i], z.children[i]);
    }
  }

  lemma KidsEmbedRefl(xs: seq<Node>)
    ensures KidsEmbed(xs, xs)
  {
    forall i | 0 <= i < |xs| ensures Embeds(xs[i], xs[i]) {
      EmbedsRefl(xs[i]);
    }
  }

  lemma KidsEmbedTrans(xs: seq<Node>, ys: seq<Node>, zs: seq<Node>)
    requires KidsEmbed(xs, ys) && KidsEmbed(ys, zs)
    ensures KidsEmbed(xs, zs)
  {
    forall i | 0 <= i < |xs| ensures Embeds(xs[i], zs[i]) {
      EmbedsTrans(xs[i], ys[i], zs[i]);
    }
  }

  /** The merge result embeds the target: no target element is removed or
      moved, at any depth, and the root keeps its tag. */
  lemma {:induction false} MergeEmbeds(a: Node, b: Node, p: Policy)
    ensures Embeds(a, Merge(a, b, p))
    ensures Merge(a, b, p).text == a.text
    decreases b, 1, 0
  {
    MergeKidsEmbeds(a.children, b, 0, p);
  }

  lemma {:induction false} MergeChildEmbeds(k: Node, c: Node, p: Policy)
    ensures Embeds(k, MergeChild(k, c, p))
    decreases c, 2, 0
  {
    if c.children != [] {
      MergeEmbeds(k, c, p);
    } else {
      EmbedsRefl(k);
    }
  }

  lemma {:induction false} MergeOneEmbeds(kids: seq<Node>, c: Node, p: Policy)
    ensures KidsEmbed(kids, MergeOne(kids, c, p))
    decreases c, 4, 0
  {
    var i := FindTag(kids, c.tag);
    var r := MergeOne(kids, c, p);
    KidsEmbedRefl(kids);
    if i < |kids| {
      var k := kids[i].(text := MergedText(kids[i].text, c.text, c.tag, p));
      EmbedsRefl(kids[i]);
      assert Embeds(kids[i], k);
      MergeChildEmbeds(k, c, p);
      EmbedsTrans(kids[i], k, r[i]);
    }
  }

  lemma {:induction false} MergeKidsEmbeds(kids: seq<Node>, b: Node, j: nat, p: Policy)
    requires j <= |b.children|
    ensures KidsEmbed(kids, MergeKids(kids, b, j, p))
    decreases b, 0, |b.children| - j
  {
    if j == |b.children| {
      KidsEmbedRefl(kids);
    } else {
      var next := MergeOne(kids, b.children[j], p);
      MergeOneEmbeds(kids, b.children[j], p);
      MergeKidsEmbeds(next, b, j + 1, p);
      KidsEmbedTrans(kids, next, MergeKids(kids, b, j, p));
    }
  }

  /** An embedding never has fewer elements. */
  lemma {:induction false} EmbedsSize(x: Node, y: Node)
    requires Embeds(x, y)
    ensures Size(x) <= Size(y)
    decreases x, 1
  {
    EmbedsSizeFrom(x, y, 0);
  }

  lemma {:induction false} EmbedsSizeFrom(x: Node, y: Node, i: nat)
    requires Embeds(x, y) && i <= |x.children|
    ensures SizeFrom(x, i) <= SizeFrom(y, i)
    decreases x, 0, |x.children| - i
  {
    if i < |x.children| {
      EmbedsSize(x.children[i], y.children[i]);
      EmbedsSizeFrom(x, y, i + 1);
    }
  }

  /** The merged tree is at least as large as the target. */
  lemma MergeGrows(a: Node, b: Node, p: Policy)
    ensures Size(a) <= Size(Merge(a, b, p))
  {
    MergeEmbeds(a, b, p);
    EmbedsSize(a, Merge(a, b, p));
  }

  // ---------------------------------------------------------------------------
  // Which target children the loop touches.

  /** Tags of the children at positions below `m` are the same in both sequences. */
  predicate SameTagsBelow(xs: seq<Node>, ys: seq<Node>, m: nat)
  {
    m <= |xs| && m <= |ys| && forall k :: 0 <= k < m ==> xs[k].tag == ys[k].tag
  }

  lemma {:induction false} FindTagAgrees(xs: seq<Node>, ys: seq<Node>, t: QName, m: nat)
    requires SameTagsBelow(xs, ys, m) && FindTag(xs, t) < m
    ensures FindTag(ys, t) == FindTag(xs, t)
    decreases |xs|
  {
    if xs[0].tag != t {
      assert SameTagsBelow(xs[1..], ys[1..], m - 1);
      FindTagAgrees(xs[1..], ys[1..], t, m - 1);
    }
  }

  lemma EmbedsTags(xs: seq<Node>, ys: seq<Node>)
    requires KidsEmbed(xs, ys)
    ensures SameTagsBelow(xs, ys, |xs|)
  {
  }

  /** A source child whose tag differs from that of the target child at
      position `i`, or a target child that is not the first with its tag, leaves
      that position as it is. */
  lemma MergeOneKeeps(kids: seq<Node>, c: Node, p: Policy, i: nat)
    requires i < |kids|
    requires c.tag != kids[i].tag || FindTag(kids, kids[i].tag) != i
    ensures MergeOne(kids, c, p)[i] == kids[i]
  {
  }

  lemma {:induction false} MergeKidsKeeps(kids: seq<Node>, b: Node, j: nat, p: Policy, i: nat)
    requires j <= |b.children| && i < |kids|
    requires FindTag(kids, kids[i].tag) != i ||
             forall j' :: j <= j' < |b.children| ==> b.children[j'].tag != kids[i].tag
    ensures i < |MergeKids(kids, b, j, p)| && MergeKids(kids, b, j, p)[i] == kids[i]
    decreases |b.children| - j
  {
    if j < |b.children| {
      var next := MergeOne(kids, b.children[j], p);
      MergeOneKeeps(kids, b.children[j], p, i);
      MergeOneEmbeds(kids, b.children[j], p);
      EmbedsTags(kids, next);
      if FindTag(kids, kids[i].tag) != i {
        FindTagAgrees(kids, next, kids[i].tag, i);
      }
      MergeKidsKeeps(next, b, j + 1, p, i);
    } else {
      MergeKidsEmbeds(kids, b, j, p);
    }
  }

  /** A target child that no source child names by tag, or that is not the
      first child with its tag (`find` returns the first match), comes out of the
      merge unchanged. */
  lemma MergeLeavesUnmatched(a: Node, b: Node, p: Policy, i: nat)
    requires i < |a.children|
    requires FindTag(a.children, a.children[i].tag) != i ||
             forall j :: 0 <= j < |b.children| ==> b.children[j].tag != a.children[i].tag
    ensures i < |Merge(a, b, p).children| && Merge(a, b, p).children[i] == a.children[i]
  {
    MergeKidsKeeps(a.children, b, 0, p, i);
  }

  /** Once the first child with tag `t` sits at position `m`, source children with
      other tags leave it there, unchanged. */
  lemma {:induction false} MergeKidsStays(kids: seq<Node>, b: Node, j: nat, p: Policy, t: QName, m: nat)
    requires j <= |b.children| && m < |kids| && FindTag(kids, t) == m
    requires forall j' :: j <= j' < |b.children| ==> b.children[j'].tag != t
    ensures m < |MergeKids(kids, b, j, p)|
    ensures FindTag(MergeKids(kids, b, j, p), t) == m && MergeKids(kids, b, j, p)[m] == kids[m]
  {
    MergeKidsKeeps(kids, b, j, p, m);
    MergeKidsEmbeds(kids, b, j, p);
    EmbedsTags(kids, MergeKids(kids, b, j, p));
    FindTagAgrees(kids, MergeKids(kids, b, j, p), t, m + 1);
  }

  /** Tags of a sequence of children. */
  function TagSet(kids: seq<Node>): set<QName>
  {
    set k | 0 <= k < |kids| :: kids[k].tag
  }

  lemma FindTagIn(kids: seq<Node>, t: QName)
    ensures FindTag(kids, t) < |kids| <==> t in TagSet(kids)
  {
    if t in TagSet(kids) {
      var k :| 0 <= k < |kids| && kids[k].tag == t;
      assert FindTag(kids, t) <= k;
    }
  }

  /** The source child `c` is the only one among `b`'s children with its tag,
      except possibly the one at `j0` (which is `c` itself). */
  predicate OnlyAt(b: Node, j0: nat, j: nat, t: QName)
  {
    forall j' :: j <= j' < |b.children| && j' != j0 ==> b.children[j'].tag != t
  }

  lemma {:induction false} MergeKidsMatched(kids: seq<Node>, b: Node, j: nat, j0: nat, p: Policy, m: nat)
    requires j <= j0 < |b.children| && OnlyAt(b, j0, j, b.children[j0].tag)
    requires m < |kids| && FindTag(kids, b.children[j0].tag) == m
    ensures m < |MergeKids(kids, b, j, p)|
    ensures MergeKids(kids, b, j, p)[m] == Updated(kids[m], b.children[j0], p)
    decreases j0 - j
  {
    var c := b.children[j0];
    var next := MergeOne(kids, b.children[j], p);
    MergeOneEmbeds(kids, b.children[j], p);
    EmbedsTags(kids, next);
    if j < j0 {
      MergeOneKeeps(kids, b.children[j], p, m);
      FindTagAgrees(kids, next, c.tag, m + 1);
      MergeKidsMatched(next, b, j + 1, j0, p, m);
    } else {
      assert next[m] == Updated(kids[m], c, p);
      FindTagAgrees(kids, next, c.tag, m + 1);
      MergeKidsStays(next, b, j + 1, p, c.tag, m);
    }
  }

  lemma {:induction false} MergeKidsCreated(kids: seq<Node>, b: Node, j: nat, j0: nat, p: Policy, floor: nat)
    requires j <= j0 < |b.children| && OnlyAt(b, j0, j, b.children[j0].tag)
    requires b.children[j0].tag !in TagSet(kids) && floor <= |kids|
    ensures var r := MergeKids(kids, b, j, p);
      floor <= FindTag(r, b.children[j0].tag) < |r| && r[FindTag(r, b.children[j0].tag)] == Created(b.children[j0], p)
    decreases j0 - j
  {
    var c := b.children[j0];
    var next := MergeOne(kids, b.children[j], p);
    MergeOneEmbeds(kids, b.children[j], p);
    FindTagIn(kids, b.children[j].tag);
    FindTagIn(kids, c.tag);
    if j < j0 {
      assert c.tag !in TagSet(next) by {
        forall k | 0 <= k < |next| ensures next[k].tag != c.tag {
          if k < |kids| {
            assert next[k].tag == kids[k].tag;
          }
        }
      }
      MergeKidsCreated(next, b, j + 1, j0, p, floor);
    } else {
      assert next == kids + [Created(c, p)];
      assert FindTag(next, c.tag) == |kids| by {
        FindTagIn(next, c.tag);
        assert next[|kids|].tag == c.tag;
        assert forall k :: 0 <= k < |kids| ==> next[k].tag == kids[k].tag;
      }
      MergeKidsStays(next, b, j + 1, p, c.tag, |kids|);
    }
  }

  /** The text and children a target child ends with when exactly one source
      child `c` carries its tag and it is the first target child with that tag. */
  lemma MergeMatchedChild(a: Node, b: Node, p: Policy, j0: nat)
    requires j0 < |b.children| && CountTag(b.children, b.children[j0].tag) == 1
    requires FindTag(a.children, b.children[j0].tag) < |a.children|
    ensures FindTag(a.children, b.children[j0].tag) < |Merge(a, b, p).children|
    ensures var c := b.children[j0];
      var i := FindTag(a.children, c.tag);
      var old_ := a.children[i];
      var new_ := Merge(a, b, p).children[i];
      && new_.tag == c.tag
      // a non-empty source text always wins
      && (TextTruthy(c.text) ==> new_.text == c.text)
      // otherwise existing text is kept, unless blank override clears a mapped field
      && (!TextTruthy(c.text) && old_.text.Some? && !(p.blankOverride && Clark(c.tag) in p.xnames) ==>
            new_.text == old_.text)
      && (!TextTruthy(c.text) && old_.text.Some? && p.blankOverride && Clark(c.tag) in p.xnames ==>
            new_.text == None)
      // no text on either side stays no text
      && (!TextTruthy(c.text) && old_.text.None? ==> new_.text == None)
      // a leaf source child is not descended into
      && (c.children == [] ==> new_.children == old_.children)
      && (c.children != [] ==> new_.children == Merge(old_, c, p).children)
  {
    var c := b.children[j0];
    OnlyOnce(b.children, j0);
    var i := FindTag(a.children, c.tag);
    var k := a.children[i];
    MergeKidsMatched(a.children, b, 0, j0, p, i);
    if c.children != [] {
      var k' := k.(text := MergedText(k.text, c.text, c.tag, p));
      assert Updated(k, c, p) == Merge(k', c, p);
      assert Merge(k', c, p).children == MergeKids(k.children, c, 0, p);
    }
  }

  /** A source child whose tag no target child has, and no other source child
      has, is appended after all target children, with the source text (or none)
      and the source's subtree merged into it. */
  lemma MergeAppendsMissing(a: Node, b: Node, p: Policy, j0: nat)
    requires j0 < |b.children| && CountTag(b.children, b.children[j0].tag) == 1
    requires forall i :: 0 <= i < |a.children| ==> a.children[i].tag != b.children[j0].tag
    ensures var c := b.children[j0];
      var r := Merge(a, b, p).children;
      var i := FindTag(r, c.tag);
      && |a.children| <= i < |r|
      && r[i].tag == c.tag
      && r[i].text == (if TextTruthy(c.text) then c.text else None)
      && r[i].children == (if c.children == [] then [] else Merge(NewChild(c), c, p).children)
  {
    var c := b.children[j0];
    OnlyOnce(b.children, j0);
    MergeKidsCreated(a.children, b, 0, j0, p, |a.children|);
  }

  // ---------------------------------------------------------------------------
  // Repeated source tags: every `find('./' + tag)` for the same tag returns the
  // same target child, so the source children with that tag are merged into it
  // one after the other.

  /** The text of a target child after the source children with tag `t`, from
      the `j`-th on, are merged into it in order. */
  function FoldText(x: Option<string>, b: Node, j: nat, t: QName, p: Policy): Option<string>
    requires j <= |b.children|
    decreases |b.children| - j
  {
    if j == |b.children| then x
    else if b.children[j].tag == t then FoldText(MergedText(x, b.children[j].text, t, p), b, j + 1, t, p)
    else FoldText(x, b, j + 1, t, p)
  }

  /** A target child after the source children with tag `t`, from the `j`-th
      on, are merged into it in order. */
  function Folded(k: Node, b: Node, j: nat, t: QName, p: Policy): (r: Node)
    requires j <= |b.children|
    ensures r.tag == k.tag && r.text == FoldText(k.text, b, j, t, p)
    decreases |b.children| - j
  {
    if j == |b.children| then k
    else if b.children[j].tag == t then Folded(Updated(k, b.children[j], p), b, j + 1, t, p)
    else Folded(k, b, j + 1, t, p)
  }

  lemma {:induction false} MergeKidsFolded(kids: seq<Node>, b: Node, j: nat, p: Policy, t: QName, m: nat)
    requires j <= |b.children| && m < |kids| && FindTag(kids, t) == m
    ensures m < |MergeKids(kids, b, j, p)|
    ensures FindTag(MergeKids(kids, b, j, p), t) == m
    ensures MergeKids(kids, b, j, p)[m] == Folded(kids[m], b, j, t, p)
    decreases |b.children| - j
  {
    if j < |b.children| {
      var c := b.children[j];
      var next := MergeOne(kids, c, p);
      MergeOneEmbeds(kids, c, p);
      EmbedsTags(kids, next);
      assert SameTagsBelow(kids, next, m + 1);
      FindTagAgrees(kids, next, t, m + 1);
      if c.tag == t {
        assert next[m] == Updated(kids[m], c, p);
      } else {
        MergeOneKeeps(kids, c, p, m);
      }
      MergeKidsFolded(next, b, j + 1, p, t, m);
    }
  }

  /** Once tag `t` occurs only at position `m`, the loop adds no other child with it. */
  lemma {:induction false} MergeKidsUnique(kids: seq<Node>, b: Node, j: nat, p: Policy, t: QName, m: nat)
    requires j <= |b.children| && m < |kids| && kids[m].tag == t
    requires forall k :: 0 <= k < |kids| && k != m ==> kids[k].tag != t
    ensures m < |MergeKids(kids, b, j, p)|
    ensures forall k :: 0 <= k < |MergeKids(kids, b, j, p)| && k != m ==> MergeKids(kids, b, j, p)[k].tag != t
    decreases |b.children| - j
  {
    if j < |b.children| {
      var c := b.children[j];
      var next := MergeOne(kids, c, p);
      MergeOneEmbeds(kids, c, p);
      EmbedsTags(kids, next);
      assert FindTag(kids, t) <= m;
      forall k | 0 <= k < |next| && k != m ensures next[k].tag != t {
        if k < |kids| {
          assert next[k].tag == kids[k].tag;
        } else {
          assert next == kids + [Created(c, p)];
        }
      }
      assert next[m].tag == t;
      MergeKidsUnique(next, b, j + 1, p, t, m);
    }
  }

  lemma {:induction false} MergeKidsAppended(kids: seq<Node>, b: Node, j: nat, j1: nat, p: Policy, floor: nat)
    requires j <= j1 < |b.children| && floor <= |kids|
    requires forall j' :: j <= j' < j1 ==> b.children[j'].tag != b.children[j1].tag
    requires b.children[j1].tag !in TagSet(kids)
    ensures var t := b.children[j1].tag;
      var r := MergeKids(kids, b, j, p);
      var i := FindTag(r, t);
      && floor <= i < |r|
      && r[i] == Folded(Created(b.children[j1], p), b, j1 + 1, t, p)
      && forall k :: 0 <= k < |r| && k != i ==> r[k].tag != t
    decreases j1 - j
  {
    var c := b.children[j1];
    var next := MergeOne(kids, b.children[j], p);
    MergeOneEmbeds(kids, b.children[j], p);
    FindTagIn(kids, b.children[j].tag);
    FindTagIn(kids, c.tag);
    if j < j1 {
      assert c.tag !in TagSet(next) by {
        forall k | 0 <= k < |next| ensures next[k].tag != c.tag {
          if k < |kids| {
            assert next[k].tag == kids[k].tag;
          }
        }
      }
      MergeKidsAppended(next, b, j + 1, j1, p, floor);
    } else {
      assert next == kids + [Created(c, p)];
      forall k | 0 <= k < |next| && k != |kids| ensures next[k].tag != c.tag {
        assert next[k].tag == kids[k].tag;
      }
      assert FindTag(next, c.tag) == |kids| by {
        FindTagIn(next, c.tag);
        assert next[|kids|].tag == c.tag;
      }
      MergeKidsFolded(next, b, j + 1, p, c.tag, |kids|);
      MergeKidsUnique(next, b, j + 1, p, c.tag, |kids|);
    }
  }

  /** Whatever the source repeats: the first target child with tag `t` ends as
      every source child with that tag merged into it in source order, so its
      text is `FoldText` of its old text. */
  lemma MergeRepeatedMatched(a: Node, b: Node, p: Policy, t: QName)
    requires FindTag(a.children, t) < |a.children|
    ensures var i := FindTag(a.children, t);
      && i < |Merge(a, b, p).children|
      && FindTag(Merge(a, b, p).children, t) == i
      && Merge(a, b, p).children[i] == Folded(a.children[i], b, 0, t, p)
      && Merge(a, b, p).children[i].text == FoldText(a.children[i].text, b, 0, t, p)
  {
    MergeKidsFolded(a.children, b, 0, p, t, FindTag(a.children, t));
  }

  /** Whatever the source repeats: a tag `t` the target lacks gets exactly one
      new child, after all target children, created from the first source child
      with that tag, with every later one merged into it in order. */
  lemma MergeRepeatedMissing(a: Node, b: Node, p: Policy, t: QName)
    requires FindTag(b.children, t) < |b.children|
    requires forall i :: 0 <= i < |a.children| ==> a.children[i].tag != t
    ensures var j1 := FindTag(b.children, t);
      var r := Merge(a, b, p).children;
      var i := FindTag(r, t);
      && |a.children| <= i < |r|
      && r[i] == Folded(Created(b.children[j1], p), b, j1 + 1, t, p)
      && r[i].text == FoldText(NewChild(b.children[j1]).text, b, j1 + 1, t, p)
      && forall k :: 0 <= k < |r| && k != i ==> r[k].tag != t
  {
    FindTagIn(a.children, t);
    MergeKidsAppended(a.children, b, 0, FindTag(b.children, t), p, |a.children|);
  }

  /** Where no later same-tagged source child has text and blank-override does
      not apply to the tag, the text stays as it is. */
  lemma {:induction false} FoldTextKept(x: Option<string>, b: Node, j: nat, t: QName, p: Policy)
    requires j <= |b.children|
    requires forall j' :: j <= j' < |b.children| && b.children[j'].tag == t ==>
      !TextTruthy(b.children[j'].text) && !(p.blankOverride && Clark(t) in p.xnames)
    ensures FoldText(x, b, j, t, p) == x
    decreases |b.children| - j
  {
    if j < |b.children| {
      FoldTextKept(x, b, j + 1, t, p);
    }
  }

  /** The last same-tagged source child with text decides the text, unless a
      later one clears it under blank-override. */
  lemma {:induction false} FoldTextLastWins(x: Option<string>, b: Node, j: nat, t: QName, p: Policy, j2: nat)
    requires j <= j2 < |b.children| && b.children[j2].tag == t && TextTruthy(b.children[j2].text)
    requires forall j' :: j2 < j' < |b.children| && b.children[j'].tag == t ==>
      !TextTruthy(b.children[j'].text) && !(p.blankOverride && Clark(t) in p.xnames)
    ensures FoldText(x, b, j, t, p) == b.children[j2].text
    decreases j2 - j
  {
    if j < j2 {
      var x' := if b.children[j].tag == t then MergedText(x, b.children[j].text, t, p) else x;
      FoldTextLastWins(x', b, j + 1, t, p, j2);
    } else {
      FoldTextKept(b.children[j2].text, b, j2 + 1, t, p);
    }
  }

  /** Under blank-override for a tag in `xnames`, a last same-tagged source
      child without text leaves no text. */
  lemma {:induction false} FoldTextCleared(x: Option<string>, b: Node, j: nat, t: QName, p: Policy, j2: nat)
    requires p.blankOverride && Clark(t) in p.xnames
    requires j <= j2 < |b.children| && b.children[j2].tag == t && !TextTruthy(b.children[j2].text)
    requires forall j' :: j2 < j' < |b.children| && b.children[j'].tag == t ==> !TextTruthy(b.children[j'].text)
    ensures FoldText(x, b, j, t, p) == None
    decreases j2 - j
  {
    if j < j2 {
      var x' := if b.children[j].tag == t then MergedText(x, b.children[j].text, t, p) else x;
      FoldTextCleared(x', b, j + 1, t, p, j2);
    } else {
      FoldNoneStays(b, j2 + 1, t, p);
    }
  }

  lemma {:induction false} FoldNoneStays(b: Node, j: nat, t: QName, p: Policy)
    requires j <= |b.children|
    requires forall j' :: j <= j' < |b.children| && b.children[j'].tag == t ==> !TextTruthy(b.children[j'].text)
    ensures FoldText(None, b, j, t, p) == None
    decreases |b.children| - j
  {
    if j < |b.children| {
      FoldNoneStays(b, j + 1, t, p);
    }
  }

  /** Two `title` children merged into a target without one collapse into a
      single appended `title` holding the second text. */
  lemma TwoTitlesCollapse()
    ensures var dc := QName(Some("http://purl.org/dc/elements/1.1/"), "dc");
      var title := QName(Some("http://purl.org/dc/elements/1.1/"), "title");
      Merge(Node(dc, None, []),
            Node(dc, None, [Node(title, Some("A"), []), Node(title, Some("B"), [])]),
            Policy(false, [])).children == [Node(title, Some("B"), [])]
  {
    var dc := QName(Some("http://purl.org/dc/elements/1.1/"), "dc");
    var title := QName(Some("http://purl.org/dc/elements/1.1/"), "title");
    var b := Node(dc, None, [Node(title, Some("A"), []), Node(title, Some("B"), [])]);
    var p := Policy(false, []);
    var kids1 := MergeOne([], b.children[0], p);
    assert kids1 == [Node(title, Some("A"), [])];
    var kids2 := MergeOne(kids1, b.children[1], p);
    assert kids2 == [Node(title, Some("B"), [])];
    assert MergeKids([], b, 0, p) == MergeKids(kids1, b, 1, p);
    assert MergeKids(kids1, b, 1, p) == MergeKids(kids2, b, 2, p);
  }

  /** A tag counted once occurs at no other position. */
  lemma {:induction false} OnlyOnce(kids: seq<Node>, j0: nat)
    requires j0 < |kids| && CountTag(kids, kids[j0].tag) == 1
    ensures forall j' :: 0 <= j' < |kids| && j' != j0 ==> kids[j'].tag != kids[j0].tag
    decreases |kids|
  {
    var t := kids[j0].tag;
    if j0 == 0 {
      NoCount(kids[1..], t);
      forall j' | 0 < j' < |kids| ensures kids[j'].tag != t {
        assert kids[1..][j' - 1] == kids[j'];
      }
    } else {
      if kids[0].tag == t {
        CountAt(kids[1..], j0 - 1, t);
      }
      OnlyOnce(kids[1..], j0 - 1);
      forall j' | 0 < j' < |kids| && j' != j0 ensures kids[j'].tag != t {
        assert kids[1..][j' - 1] == kids[j'];
      }
    }
  }

  lemma {:induction false} NoCount(kids: seq<Node>, t: QName)
    requires CountTag(kids, t) == 0
    ensures forall k :: 0 <= k < |kids| ==> kids[k].tag != t
    decreases |kids|
  {
    if kids != [] {
      NoCount(kids[1..], t);
      forall k | 0 < k < |kids| ensures kids[k].tag != t {
        assert kids[1..][k - 1] == kids[k];
      }
    }
  }

  lemma {:induction false} CountAt(kids: seq<Node>, k: nat, t: QName)
    requires k < |kids| && kids[k].tag == t
    ensures CountTag(kids, t) >= 1
    decreases |kids|
  {
    if k > 0 {
      CountAt(kids[1..], k - 1, t);
    }
  }

  /** Tags after the merge: the target's and the source's, and exactly one new
      child per source tag the target lacked (same-tagged source children are
      merged into the same target child). */
  lemma MergeTags(a: Node, b: Node, p: Policy)
    ensures TagSet(Merge(a, b, p).children) == TagSet(a.children) + TagSet(b.children)
    ensures |Merge(a, b, p).children| == |a.children| + |TagSet(b.children) - TagSet(a.children)|
  {
    MergeKidsTags(a.children, a.children, b, 0, p);
    assert b.children[..|b.children|] == b.children;
    assert b.children[..0] == [];
    assert TagSet([]) == {};
  }

  lemma {:induction false} MergeKidsTags(a0: seq<Node>, kids: seq<Node>, b: Node, j: nat, p: Policy)
    requires j <= |b.children|
    requires TagSet(kids) == TagSet(a0) + TagSet(b.children[..j])
    requires |kids| == |a0| + |TagSet(b.children[..j]) - TagSet(a0)|
    ensures TagSet(MergeKids(kids, b, j, p)) == TagSet(a0) + TagSet(b.children)
    ensures |MergeKids(kids, b, j, p)| == |a0| + |TagSet(b.children) - TagSet(a0)|
    decreases |b.children| - j
  {
    if j == |b.children| {
      assert b.children[..j] == b.children;
    } else {
      MergeKidsTagsStep(a0, kids, b, j, p);
      MergeKidsTags(a0, MergeOne(kids, b.children[j], p), b, j + 1, p);
    }
  }

  lemma MergeKidsTagsStep(a0: seq<Node>, kids: seq<Node>, b: Node, j: nat, p: Policy)
    requires j < |b.children|
    requires TagSet(kids) == TagSet(a0) + TagSet(b.children[..j])
    requires |kids| == |a0| + |TagSet(b.children[..j]) - TagSet(a0)|
    ensures TagSet(MergeOne(kids, b.children[j], p)) == TagSet(a0) + TagSet(b.children[..j + 1])
    ensures |MergeOne(kids, b.children[j], p)| == |a0| + |TagSet(b.children[..j + 1]) - TagSet(a0)|
  {
    var c := b.children[j];
    var bj := TagSet(b.children[..j]);
    assert TagSet(b.children[..j + 1]) == bj + {c.tag} by {
      assert b.children[..j + 1] == b.children[..j] + [c];
      TagSetSnoc(b.children[..j], c);
    }
    var next := MergeOne(kids, c, p);
    MergeOneTags(kids, c, p);
    TagArith(TagSet(a0), bj, TagSet(kids), TagSet(next), c.tag, |a0|, |kids|, |next|);
  }

  lemma TagArith(a: set<QName>, b: set<QName>, k: set<QName>, n: set<QName>, t: QName, na: nat, nk: nat, nn: nat)
    requires k == a + b && nk == na + |b - a|
    requires n == k + {t} && nn == nk + (if t in k then 0 else 1)
    ensures n == a + (b + {t}) && nn == na + |(b + {t}) - a|
  {
    NewTagCount(a, b, t);
  }

  lemma NewTagCount(a: set<QName>, b: set<QName>, t: QName)
    ensures (b + {t}) - a == (if t in a + b then b - a else (b - a) + {t})
    ensures |(b + {t}) - a| == |b - a| + (if t in a + b then 0 else 1)
  {
    if t !in a + b {
      assert t !in b - a;
    }
  }

  lemma TagSetSnoc(kids: seq<Node>, c: Node)
    ensures TagSet(kids + [c]) == TagSet(kids) + {c.tag}
  {
    var s := kids + [c];
    forall t | t in TagSet(s) ensures t in TagSet(kids) + {c.tag} {
      var k :| 0 <= k < |s| && s[k].tag == t;
      if k < |kids| { assert kids[k].tag == t; }
    }
    assert s[|kids|].tag == c.tag;
    forall t | t in TagSet(kids) ensures t in TagSet(s) {
      var k :| 0 <= k < |kids| && kids[k].tag == t;
      assert s[k].tag == t;
    }
  }

  /** One loop step adds the source child's tag, and a child only when the tag
      was new. */
  lemma MergeOneTags(kids: seq<Node>, c: Node, p: Policy)
    ensures TagSet(MergeOne(kids, c, p)) == TagSet(kids) + {c.tag}
    ensures |MergeOne(kids, c, p)| == |kids| + (if c.tag in TagSet(kids) then 0 else 1)
  {
    var next := MergeOne(kids, c, p);
    FindTagIn(kids, c.tag);
    var i := FindTag(kids, c.tag);
    if i < |kids| {
      forall t | t in TagSet(next) ensures t in TagSet(kids) {
        var k :| 0 <= k < |next| && next[k].tag == t;
        assert kids[k].tag == t;
      }
      forall t | t in TagSet(kids) ensures t in TagSet(next) {
        var k :| 0 <= k < |kids| && kids[k].tag == t;
        assert next[k].tag == t;
      }
    } else {
      TagSetSnoc(kids, Created(c, p));
    }
  }

  // ---------------------------------------------------------------------------
  // Merging into an empty target.

  /** The source tree as the merge rebuilds it under an empty target: empty
      texts become no text. */
  function Copy(n: Node): Node
    decreases n
  {
    Node(n.tag, if TextTruthy(n.text) then n.text else None,
         seq(|n.children|, i requires 0 <= i < |n.children| => Copy(n.children[i])))
  }

  /** No two siblings share a tag, at any depth. */
  predicate DistinctTags(n: Node)
  {
    (forall i, j :: 0 <= i < j < |n.children| ==> n.children[i].tag != n.children[j].tag) &&
    forall i :: 0 <= i < |n.children| ==> DistinctTags(n.children[i])
  }

  /** Merging a fragment whose siblings all have distinct tags into a target
      with no children reproduces the fragment (empty texts read as none). */
  lemma {:induction false} MergeIntoEmpty(a: Node, b: Node, p: Policy)
    requires a.children == [] && DistinctTags(b)
    ensures Merge(a, b, p).children == Copy(b).children
    decreases b, 1
  {
    MergeKidsCopies(b, 0, p);
    assert b.children[..0] == [];
    assert b.children[..|b.children|] == b.children;
  }

  function Copies(kids: seq<Node>): (r: seq<Node>)
    ensures |r| == |kids|
  {
    seq(|kids|, i requires 0 <= i < |kids| => Copy(kids[i]))
  }

  lemma {:induction false} MergeKidsCopies(b: Node, j: nat, p: Policy)
    requires j <= |b.children| && DistinctTags(b)
    ensures MergeKids(Copies(b.children[..j]), b, j, p) == Copies(b.children)
    decreases b, 0, |b.children| - j
  {
    if j == |b.children| {
      assert b.children[..j] == b.children;
    } else {
      var c := b.children[j];
      var kids := Copies(b.children[..j]);
      assert FindTag(kids, c.tag) == |kids| by {
        forall k | 0 <= k < |kids| ensures kids[k].tag != c.tag {
          assert kids[k] == Copy(b.children[k]);
        }
      }
      assert Created(c, p) == Copy(c) by {
        if c.children != [] {
          MergeIntoEmpty(NewChild(c), c, p);
        }
      }
      assert MergeOne(kids, c, p) == Copies(b.children[..j + 1]);
      MergeKidsCopies(b, j + 1, p);
    }
  }
}
