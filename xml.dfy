/** XML element trees as the engine handles them: qualified tags, optional
    text and ordered children; element addresses, document order, and the
    structural element path lxml's `getelementpath` produces. */
module Xml {
  import opened Base

  /** A qualified tag: its namespace (None when the element has none) and its
      local name. */
  datatype QName = QName(ns: Option<string>, local: string)

  /** One element: its tag, its text (None when it has none) and its children. */
  datatype Node = Node(tag: QName, text: Option<string>, children: seq<Node>)

  /** `f"{ns}"` for a namespace that may be None. */
  function NsText(ns: Option<string>): string
  {
    if ns.Some? then ns.value else "None"
  }

  /** The tag as lxml spells it: `{ns}local`, or `local` without a namespace. */
  function Clark(q: QName): string
  {
    if q.ns.Some? then "{" + q.ns.value + "}" + q.local else q.local
  }

  /** `f"{{{ns}}}{local}"` as the template index writes it: a missing namespace
      is spelled `{None}`. */
  function XName(q: QName): string
  {
    "{" + NsText(q.ns) + "}" + q.local
  }

  /** Python's `bool(elem.text)`. */
  predicate TextTruthy(t: Option<string>)
  {
    t.Some? && t.value != ""
  }

  /** The position of an element below a root: the child index at each level. */
  type Address = seq<nat>

  predicate ValidAddress(n: Node, a: Address)
    decreases |a|
  {
    a == [] || (a[0] < |n.children| && ValidAddress(n.children[a[0]], a[1..]))
  }

  /** The element at address `a`. */
  function At(n: Node, a: Address): Node
    requires ValidAddress(n, a)
    decreases |a|
  {
    if a == [] then n else At(n.children[a[0]], a[1..])
  }

  /** `elem.text = t` for the element at address `a`. */
  function SetText(n: Node, a: Address, t: Option<string>): Node
    requires ValidAddress(n, a)
    decreases |a|
  {
    if a == [] then n.(text := t)
    else n.(children := n.children[a[0] := SetText(n.children[a[0]], a[1..], t)])
  }

  /** The two trees have the same elements with the same tags; texts may differ. */
  predicate SameShape(x: Node, y: Node)
  {
    x.tag == y.tag && |x.children| == |y.children| &&
    forall i :: 0 <= i < |x.children| ==> SameShape(x.children[i], y.children[i])
  }

  /** The addresses of all elements below `n` (the root excluded), in document
      order: what `findall('.//')` visits. */
  function Preorder(n: Node): seq<Address>
    decreases n, 1
  {
    PreorderFrom(n, 0)
  }

  function PreorderFrom(n: Node, i: nat): seq<Address>
    requires i <= |n.children|
    decreases n, 0, |n.children| - i
  {
    if i == |n.children| then []
    else [[i]] + Under(i, Preorder(n.children[i])) + PreorderFrom(n, i + 1)
  }

  /** Addresses of a child's subtree, seen from its parent. */
  function Under(i: nat, addrs: seq<Address>): (r: seq<Address>)
    ensures |r| == |addrs|
    ensures forall k :: 0 <= k < |r| ==> r[k] == [i] + addrs[k]
  {
    seq(|addrs|, k requires 0 <= k < |addrs| => [i] + addrs[k])
  }

  /** Number of elements with tag `t` in `kids`. */
  function CountTag(kids: seq<Node>, t: QName): nat
  {
    if kids == [] then 0 else (if kids[0].tag == t then 1 else 0) + CountTag(kids[1..], t)
  }

  /** The `[k]` part of an element-path step: the child's 1-based rank among
      same-tagged siblings, written whenever a sibling shares its tag. */
  function Suffix(kids: seq<Node>, i: nat): (r: string)
    requires i < |kids|
    ensures forall k :: 0 <= k < |r| ==> r[k] == '[' || r[k] == ']' || '0' <= r[k] <= '9'
  {
    var t := kids[i].tag;
    var before := CountTag(kids[..i], t);
    if before > 0 then "[" + NatToString(before + 1) + "]"
    else if CountTag(kids[i + 1..], t) > 0 then "[1]"
    else ""
  }

  /** One step of an element path: the child's tag and its rank suffix. */
  function StepText(kids: seq<Node>, i: nat): string
    requires i < |kids|
  {
    Clark(kids[i].tag) + Suffix(kids, i)
  }

  function PathSteps(n: Node, a: Address): seq<string>
    requires ValidAddress(n, a)
    decreases |a|
  {
    if a == [] then [] else [StepText(n.children, a[0])] + PathSteps(n.children[a[0]], a[1..])
  }

  /** `tree.getelementpath(elem)` for the element at address `a`. */
  function ElementPath(n: Node, a: Address): string
    requires ValidAddress(n, a)
  {
    JoinSlash(PathSteps(n, a))
  }

  /** Every address listed in document order is a valid, non-root address. */
  lemma {:induction false} PreorderValid(n: Node)
    ensures forall k :: 0 <= k < |Preorder(n)| ==> Preorder(n)[k] != [] && ValidAddress(n, Preorder(n)[k])
    decreases n, 1
  {
    PreorderFromValid(n, 0);
  }

  lemma {:induction false} PreorderFromValid(n: Node, i: nat)
    requires i <= |n.children|
    ensures forall k :: 0 <= k < |PreorderFrom(n, i)| ==>
      PreorderFrom(n, i)[k] != [] && ValidAddress(n, PreorderFrom(n, i)[k])
    decreases n, 0, |n.children| - i
  {
    if i < |n.children| {
      var c := n.children[i];
      PreorderValid(c);
      PreorderFromValid(n, i + 1);
      var u := Under(i, Preorder(c));
      forall k | 0 <= k < |u| ensures u[k] != [] && ValidAddress(n, u[k]) {
        assert u[k][1..] == Preorder(c)[k];
      }
      assert ValidAddress(n, [i]) by { assert [i][1..] == []; }
    }
  }

  /** Setting one element's text keeps the shape and changes the text at that
      address only. */
  lemma {:induction false} SetTextAt(n: Node, a: Address, b: Address, t: Option<string>)
    requires ValidAddress(n, a) && ValidAddress(n, b)
    ensures SameShape(n, SetText(n, a, t))
    ensures ValidAddress(SetText(n, a, t), b)
    ensures At(SetText(n, a, t), b).tag == At(n, b).tag
    ensures At(SetText(n, a, t), b).text == if b == a then t else At(n, b).text
    decreases |a|
  {
    var m := SetText(n, a, t);
    if a == [] {
      SameShapeRefl(n.children);
      assert SameShape(n, m);
      if b != [] {
        AtIgnoresRootText(n, b, t);
      }
    } else {
      var c := n.children[a[0]];
      SetTextAt(c, a[1..], if b != [] && b[0] == a[0] then b[1..] else [], t);
      SameShapeRefl(n.children);
      forall i | 0 <= i < |n.children| ensures SameShape(n.children[i], m.children[i]) {
        if i == a[0] {
          SetTextAt(c, a[1..], [], t);
        }
      }
      if b != [] && b[0] != a[0] {
        assert m.children[b[0]] == n.children[b[0]];
      }
      if b != [] && b[0] == a[0] {
        assert b == a ==> b[1..] == a[1..];
        assert b[1..] == a[1..] ==> b == a by {
          if b[1..] == a[1..] { assert b == [b[0]] + b[1..]; assert a == [a[0]] + a[1..]; }
        }
      }
    }
  }

  /** Below the root, the root's own text plays no part. */
  lemma AtIgnoresRootText(n: Node, b: Address, t: Option<string>)
    requires ValidAddress(n, b) && b != []
    ensures ValidAddress(n.(text := t), b) && At(n.(text := t), b) == At(n, b)
  {
  }

  lemma {:induction false} SameShapeRefl(kids: seq<Node>)
    ensures forall i :: 0 <= i < |kids| ==> SameShape(kids[i], kids[i])
    decreases kids
  {
    forall i | 0 <= i < |kids| ensures SameShape(kids[i], kids[i]) {
      SameShapeRefl(kids[i].children);
    }
  }

  lemma {:induction false} SameShapeTrans(x: Node, y: Node, z: Node)
    requires SameShape(x, y) && SameShape(y, z)
    ensures SameShape(x, z)
    decreases x
  {
    forall i | 0 <= i < |x.children| ensures SameShape(x.children[i], z.children[i]) {
      SameShapeTrans(x.children[i], y.children[i], z.children[i]);
    }
  }

  /** Trees of the same shape agree on addresses, tags, document order and
      element paths. */
  lemma {:induction false} SameShapeAt(x: Node, y: Node, a: Address)
    requires SameShape(x, y) && ValidAddress(x, a)
    ensures ValidAddress(y, a) && At(x, a).tag == At(y, a).tag
    ensures SameShape(At(x, a), At(y, a))
    ensures PathSteps(x, a) == PathSteps(y, a)
    decreases |a|
  {
    if a != [] {
      SameShapeAt(x.children[a[0]], y.children[a[0]], a[1..]);
      SameShapeStep(x.children, y.children, a[0]);
    }
  }

  lemma SameShapeStep(xs: seq<Node>, ys: seq<Node>, i: nat)
    requires |xs| == |ys| && i < |xs|
    requires forall k :: 0 <= k < |xs| ==> SameShape(xs[k], ys[k])
    ensures StepText(xs, i) == StepText(ys, i)
  {
    SameTagsCount(xs[..i], ys[..i], xs[i].tag);
    SameTagsCount(xs[i + 1..], ys[i + 1..], xs[i].tag);
  }

  lemma {:induction false} SameTagsCount(xs: seq<Node>, ys: seq<Node>, t: QName)
    requires |xs| == |ys|
    requires forall k :: 0 <= k < |xs| ==> xs[k].tag == ys[k].tag
    ensures CountTag(xs, t) == CountTag(ys, t)
    decreases |xs|
  {
    if xs != [] {
      SameTagsCount(xs[1..], ys[1..], t);
    }
  }

  lemma {:induction false} SameShapePreorder(x: Node, y: Node)
    requires SameShape(x, y)
    ensures Preorder(x) == Preorder(y)
    decreases x, 1
  {
    SameShapePreorderFrom(x, y, 0);
  }

  lemma {:induction false} SameShapePreorderFrom(x: Node, y: Node, i: nat)
    requires SameShape(x, y) && i <= |x.children|
    ensures PreorderFrom(x, i) == PreorderFrom(y, i)
    decreases x, 0, |x.children| - i
  {
    if i < |x.children| {
      SameShapePreorder(x.children[i], y.children[i]);
      SameShapePreorderFrom(x, y, i + 1);
    }
  }

  /** Every element below the root is listed in document order. */
  lemma {:induction false} InPreorder(n: Node, a: Address)
    requires ValidAddress(n, a) && a != []
    ensures a in Preorder(n)
    decreases |a|, 1
  {
    InPreorderFrom(n, 0, a);
  }

  lemma {:induction false} InPreorderFrom(n: Node, i: nat, a: Address)
    requires ValidAddress(n, a) && a != [] && i <= a[0]
    ensures a in PreorderFrom(n, i)
    decreases |a|, 0, |n.children| - i
  {
    if i < a[0] {
      InPreorderFrom(n, i + 1, a);
    } else if |a| == 1 {
      assert a == [i];
    } else {
      var c := n.children[i];
      InPreorder(c, a[1..]);
      var k :| 0 <= k < |Preorder(c)| && Preorder(c)[k] == a[1..];
      assert Under(i, Preorder(c))[k] == a;
    }
  }
}
