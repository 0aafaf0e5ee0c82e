/** Fragment generation (`generate_descriptive_metadata`,
    preservica_modify/pres_modify.py:306-356): one row's cells written into a
    copy of a template, element by element of the template's index entry. */
module Fragments {
  import opened Base
  import opened Cells
  import opened Xml
  import opened Templates

  /** `xml_method`: `flat` (or `f`) looks elements up by tag, `exact` (or `e`)
      by element path. */
  datatype Mode = Flat | Exact

  /** The column an entry reads: its path in exact mode, its flat name otherwise. */
  function Column(m: Mode, e: Entry): string
  {
    if m == Exact then e.path else e.name
  }

  /** `str(val)` as written into the XML: a timestamp is first formatted. */
  function Written(c: Cell): string
  {
    if c.Stamp? then c.formatted else Text(c)
  }

  /** The cell is written: it is not null and its text is not a sentinel. */
  predicate Writes(c: Cell)
  {
    !c.Missing? && !IsSentinel(Written(c))
  }

  /** The string the lookup compares with each element. */
  function Query(m: Mode, e: Entry, localName: string): string
  {
    if m == Exact then ExactQuery(e, localName) else FlatQuery(e)
  }

  /** What the lookup compares the query with: the element path in exact mode
      (`find('./' + path)`), the `{ns}local` tag in flat mode (`find('.//' + tag)`). */
  function Key(n: Node, a: Address, m: Mode): string
    requires ValidAddress(n, a)
  {
    if m == Exact then ElementPath(n, a) else Clark(At(n, a).tag)
  }

  /** Position of the first address whose key is `want`, or `|addrs|`. */
  function FindIndex(n: Node, addrs: seq<Address>, want: string, m: Mode): (k: nat)
    requires forall j :: 0 <= j < |addrs| ==> ValidAddress(n, addrs[j])
    ensures k <= |addrs|
    ensures k < |addrs| ==> Key(n, addrs[k], m) == want
    ensures forall j :: 0 <= j < k ==> Key(n, addrs[j], m) != want
  {
    if addrs == [] then 0
    else if Key(n, addrs[0], m) == want then 0
    else 1 + FindIndex(n, addrs[1..], want, m)
  }

  /** `find`: the first element below the root, in document order, that the
      query names. */
  function Find(n: Node, want: string, m: Mode): (r: Option<Address>)
    ensures r.Some? ==> r.value != [] && ValidAddress(n, r.value) && Key(n, r.value, m) == want
    ensures r.Some? ==> r.value in Preorder(n)
    ensures r.Some? ==>
      exists i :: 0 <= i < |Preorder(n)| && Preorder(n)[i] == r.value &&
        forall j :: 0 <= j < i ==> ValidAddress(n, Preorder(n)[j]) && Key(n, Preorder(n)[j], m) != want
    ensures r.None? ==>
      forall j :: 0 <= j < |Preorder(n)| ==> ValidAddress(n, Preorder(n)[j]) && Key(n, Preorder(n)[j], m) != want
  {
    PreorderValid(n);
    var k := FindIndex(n, Preorder(n), want, m);
    if k < |Preorder(n)| then Some(Preorder(n)[k]) else None
  }

  /** One iteration of the loop over a template's entries: read the entry's
      column (`KeyError` when it is absent), skip a null or `nan`/`nat` cell,
      otherwise set the text of the element the lookup finds (an
      `AttributeError` on `None` when it finds none). */
  function Apply(tree: Node, e: Entry, m: Mode, headers: seq<string>, row: Row, localName: string): Result<Node, Failure>
  {
    var col := Column(m, e);
    if col !in headers then Err(MissingColumn(col))
    else
      var c := CellAt(row, col);
      if !Writes(c) then Ok(tree)
      else
        var q := Query(m, e, localName);
        var target := Find(tree, q, m);
        if target.None? then Err(ElementNotFound(q))
        else Ok(SetText(tree, target.value, Some(Written(c))))
  }

  /** The loop from entry `k` on, `tree` being the fragment so far. */
  function Fill(tree: Node, es: seq<Entry>, k: nat, m: Mode, headers: seq<string>, row: Row,
                localName: string): Result<Node, Failure>
    requires k <= |es|
    decreases |es| - k
  {
    if k == |es| then Ok(tree)
    else
      var r := Apply(tree, es[k], m, headers, row, localName);
      if r.Err? then r else Fill(r.value, es, k + 1, m, headers, row, localName)
  }

  /** `self.xml_new` after generation for the rows `idx` selects: unchanged
      (`prior`) when the descriptor has no entries or no row is selected,
      otherwise the template filled from the first selected row. */
  function Generate(d: Descriptor, m: Mode, headers: seq<string>, idx: seq<Row>,
                    prior: Option<Node>): Result<Option<Node>, Failure>
  {
    if |d.data| == 0 || idx == [] then Ok(prior)
    else
      var r := Fill(d.template, d.data, 0, m, headers, idx[0], d.localName);
      if r.Ok? then Ok(Some(r.value)) else Err(r.error)
  }

  // ---------------------------------------------------------------------------

  /** Entry `j` writes the element at `b`. */
  predicate WrittenBy(tree: Node, es: seq<Entry>, j: nat, m: Mode, row: Row, localName: string, b: Address)
    requires j < |es|
  {
    var c := CellAt(row, Column(m, es[j]));
    Writes(c) && Find(tree, Query(m, es[j], localName), m) == Some(b)
  }

  lemma {:induction false} FindIndexSameShape(x: Node, y: Node, addrs: seq<Address>, want: string, m: Mode)
    requires SameShape(x, y)
    requires forall j :: 0 <= j < |addrs| ==> ValidAddress(x, addrs[j])
    ensures forall j :: 0 <= j < |addrs| ==> ValidAddress(y, addrs[j])
    ensures FindIndex(x, addrs, want, m) == FindIndex(y, addrs, want, m)
    decreases |addrs|
  {
    forall j | 0 <= j < |addrs| ensures ValidAddress(y, addrs[j]) && Key(x, addrs[j], m) == Key(y, addrs[j], m) {
      SameShapeAt(x, y, addrs[j]);
    }
    if addrs != [] {
      FindIndexSameShape(x, y, addrs[1..], want, m);
    }
  }

  /** Trees of the same shape answer every lookup alike: writing texts never
      changes what later lookups find. */
  lemma FindSameShape(x: Node, y: Node, want: string, m: Mode)
    requires SameShape(x, y)
    ensures Find(x, want, m) == Find(y, want, m)
  {
    PreorderValid(x);
    SameShapePreorder(x, y);
    FindIndexSameShape(x, y, Preorder(x), want, m);
  }

  /** One iteration only sets the text of the element it finds. */
  lemma ApplyAt(tree: Node, e: Entry, m: Mode, headers: seq<string>, row: Row, localName: string, b: Address, t: Node)
    requires Apply(tree, e, m, headers, row, localName) == Ok(t) && ValidAddress(tree, b)
    ensures SameShape(tree, t) && ValidAddress(t, b)
    ensures At(t, b).text ==
      (if Writes(CellAt(row, Column(m, e))) && Find(tree, Query(m, e, localName), m) == Some(b)
       then Some(Written(CellAt(row, Column(m, e)))) else At(tree, b).text)
  {
    var c := CellAt(row, Column(m, e));
    if Writes(c) {
      SetTextAt(tree, Find(tree, Query(m, e, localName), m).value, b, Some(Written(c)));
    } else {
      SameShapeRefl(tree.children);
    }
  }

  /** Generation only writes texts: the fragment has the template's shape. */
  lemma {:induction false} FillShape(tree: Node, es: seq<Entry>, k: nat, m: Mode, headers: seq<string>,
                                     row: Row, localName: string)
    requires k <= |es| && Fill(tree, es, k, m, headers, row, localName).Ok?
    ensures SameShape(tree, Fill(tree, es, k, m, headers, row, localName).value)
    decreases |es| - k
  {
    if k == |es| {
      SameShapeRefl(tree.children);
    } else {
      var next := Apply(tree, es[k], m, headers, row, localName).value;
      ApplyAt(tree, es[k], m, headers, row, localName, [], next);
      FillShape(next, es, k + 1, m, headers, row, localName);
      SameShapeTrans(tree, next, Fill(tree, es, k, m, headers, row, localName).value);
    }
  }

  /** Entry `e` can run on `tree`: its column exists and, when it has a value
      to write, the lookup finds an element. */
  predicate Ready(tree: Node, e: Entry, m: Mode, headers: seq<string>, row: Row, localName: string)
  {
    Column(m, e) in headers &&
    (Writes(CellAt(row, Column(m, e))) ==> Find(tree, Query(m, e, localName), m).Some?)
  }

  /** Generation succeeds exactly when every entry's column exists and every
      entry with a value to write finds its element. */
  lemma {:induction false} FillSucceeds(tree: Node, es: seq<Entry>, k: nat, m: Mode, headers: seq<string>,
                                        row: Row, localName: string)
    requires k <= |es|
    ensures Fill(tree, es, k, m, headers, row, localName).Ok? <==>
      forall j :: k <= j < |es| ==> Ready(tree, es[j], m, headers, row, localName)
    decreases |es| - k
  {
    if k < |es| {
      var r := Apply(tree, es[k], m, headers, row, localName);
      ApplySucceeds(tree, es[k], m, headers, row, localName);
      if r.Ok? {
        FillSucceedsStep(tree, r.value, es, k, m, headers, row, localName);
        FillSucceeds(r.value, es, k + 1, m, headers, row, localName);
      }
    }
  }

  /** One iteration succeeds exactly when its entry is ready. */
  lemma ApplySucceeds(tree: Node, e: Entry, m: Mode, headers: seq<string>, row: Row, localName: string)
    ensures Apply(tree, e, m, headers, row, localName).Ok? <==> Ready(tree, e, m, headers, row, localName)
  {
  }

  /** After a successful iteration the remaining entries are ready exactly when
      they were before. */
  lemma FillSucceedsStep(tree: Node, next: Node, es: seq<Entry>, k: nat, m: Mode, headers: seq<string>,
                         row: Row, localName: string)
    requires k < |es| && Apply(tree, es[k], m, headers, row, localName) == Ok(next)
    ensures forall j :: k < j < |es| ==>
      Ready(next, es[j], m, headers, row, localName) == Ready(tree, es[j], m, headers, row, localName)
  {
    ApplyAt(tree, es[k], m, headers, row, localName, [], next);
    forall j | k < j < |es|
      ensures Ready(next, es[j], m, headers, row, localName) == Ready(tree, es[j], m, headers, row, localName)
    {
      FindSameShape(tree, next, Query(m, es[j], localName), m);
    }
  }

  /** An element no remaining entry writes keeps its text: unmapped elements,
      and elements whose cells are null or `nan`/`nat`, keep the template's text. */
  lemma {:induction false} FillKeepsUnwritten(tree: Node, es: seq<Entry>, k: nat, m: Mode, headers: seq<string>,
                                              row: Row, localName: string, b: Address)
    requires k <= |es| && ValidAddress(tree, b)
    requires Fill(tree, es, k, m, headers, row, localName).Ok?
    requires forall j :: k <= j < |es| ==> !WrittenBy(tree, es, j, m, row, localName, b)
    ensures ValidAddress(Fill(tree, es, k, m, headers, row, localName).value, b)
    ensures At(Fill(tree, es, k, m, headers, row, localName).value, b).text == At(tree, b).text
    decreases |es| - k
  {
    if k < |es| {
      var next := Apply(tree, es[k], m, headers, row, localName).value;
      assert !WrittenBy(tree, es, k, m, row, localName, b);
      ApplyAt(tree, es[k], m, headers, row, localName, b, next);
      forall j | k < j < |es| ensures !WrittenBy(next, es, j, m, row, localName, b) {
        FindSameShape(tree, next, Query(m, es[j], localName), m);
        assert WrittenBy(next, es, j, m, row, localName, b) == WrittenBy(tree, es, j, m, row, localName, b);
      }
      FillKeepsUnwritten(next, es, k + 1, m, headers, row, localName, b);
    }
  }

  /** The last entry that writes an element decides its text: `str` of that
      entry's cell. */
  lemma {:induction false} FillLastWriteWins(tree: Node, es: seq<Entry>, k: nat, m: Mode, headers: seq<string>,
                                             row: Row, localName: string, j: nat, b: Address)
    requires k <= j < |es| && ValidAddress(tree, b)
    requires Fill(tree, es, k, m, headers, row, localName).Ok?
    requires WrittenBy(tree, es, j, m, row, localName, b)
    requires forall j' :: j < j' < |es| ==> !WrittenBy(tree, es, j', m, row, localName, b)
    ensures ValidAddress(Fill(tree, es, k, m, headers, row, localName).value, b)
    ensures At(Fill(tree, es, k, m, headers, row, localName).value, b).text ==
            Some(Written(CellAt(row, Column(m, es[j]))))
    decreases |es| - k
  {
    var next := Apply(tree, es[k], m, headers, row, localName).value;
    ApplyAt(tree, es[k], m, headers, row, localName, b, next);
    forall j' | k < j' < |es| ensures WrittenBy(next, es, j', m, row, localName, b) == WrittenBy(tree, es, j', m, row, localName, b) {
      FindSameShape(tree, next, Query(m, es[j'], localName), m);
    }
    assert Fill(tree, es, k, m, headers, row, localName) == Fill(next, es, k + 1, m, headers, row, localName);
    if k < j {
      FillLastWriteWins(next, es, k + 1, m, headers, row, localName, j, b);
    } else {
      assert At(next, b).text == Some(Written(CellAt(row, Column(m, es[j]))));
      FillKeepsUnwritten(next, es, k + 1, m, headers, row, localName, b);
    }
  }

  /** In exact mode, an entry of an element whose path stays in one namespace
      finds an element with that same element path. */
  lemma ExactLookupFinds(root: Node, a: Address, u: string)
    requires ValidAddress(root, a) && a != []
    requires OnePathNamespace(root, a, u) && ':' !in root.tag.local
    ensures var r := Find(root, Query(Exact, EntryOf(root, a), root.tag.local), Exact);
      r.Some? && ElementPath(root, r.value) == ElementPath(root, a)
  {
    ExactRoundTrip(root, a, u);
    InPreorder(root, a);
    FindLocates(root, a, ElementPath(root, a), Exact);
  }

  /** In flat mode, an entry of a namespaced element finds the first element
      in document order with the same `{ns}local` tag: the element itself or an
      earlier namesake, and no element before that one has the tag. */
  lemma FlatLookupFinds(root: Node, a: Address)
    requires ValidAddress(root, a) && a != []
    requires ':' !in At(root, a).tag.local && At(root, a).tag.ns.Some?
    ensures var r := Find(root, Query(Flat, EntryOf(root, a), root.tag.local), Flat);
      r.Some? && Clark(At(root, r.value).tag) == Clark(At(root, a).tag)
    ensures var r := Find(root, Query(Flat, EntryOf(root, a), root.tag.local), Flat);
      var order := Preorder(root);
      r.Some? &&
      exists i, j :: 0 <= i <= j < |order| && order[i] == r.value && order[j] == a &&
        forall k :: 0 <= k < i ==>
          ValidAddress(root, order[k]) && Clark(At(root, order[k]).tag) != Clark(At(root, a).tag)
  {
    FlatQueryIsTag(root, a);
    InPreorder(root, a);
    PreorderValid(root);
    var order := Preorder(root);
    var q := Clark(At(root, a).tag);
    var j :| 0 <= j < |order| && order[j] == a;
    var i := FindIndex(root, order, q, Flat);
    assert i <= j;
    assert Find(root, q, Flat) == Some(order[i]);
  }

  /** An element listed in document order whose key is the query is found. */
  lemma FindLocates(root: Node, a: Address, want: string, m: Mode)
    requires a in Preorder(root) && ValidAddress(root, a) && Key(root, a, m) == want
    ensures Find(root, want, m).Some?
  {
    PreorderValid(root);
    var k :| 0 <= k < |Preorder(root)| && Preorder(root)[k] == a;
    assert FindIndex(root, Preorder(root), want, m) <= k;
  }

  /** A generation that runs leaves a fragment of the template's shape; one
      that does not run (no entries, or no row selected) leaves `self.xml_new`
      as it was, possibly the previous template's fragment. */
  lemma GenerateResult(d: Descriptor, m: Mode, headers: seq<string>, idx: seq<Row>, prior: Option<Node>)
    ensures |d.data| == 0 || idx == [] ==> Generate(d, m, headers, idx, prior) == Ok(prior)
    ensures |d.data| > 0 && idx != [] && Generate(d, m, headers, idx, prior).Ok? ==>
      Generate(d, m, headers, idx, prior).value.Some? &&
      SameShape(d.template, Generate(d, m, headers, idx, prior).value.value)
  {
    if |d.data| > 0 && idx != [] && Generate(d, m, headers, idx, prior).Ok? {
      FillShape(d.template, d.data, 0, m, headers, idx[0], d.localName);
    }
  }

  /** A template whose title element has no namespace. */
  function PlainDc(): Node
  {
    Node(QName(None, "dc"), None, [Node(QName(None, "title"), None, [])])
  }

  /** The index entry of that title element. */
  lemma PlainDcEntry()
    ensures EntryOf(PlainDc(), [0]) == Entry("dc:title", "{None}title", None, "title")
  {
    var root := PlainDc();
    assert StepText(root.children, 0) == "title";
    assert ElementPath(root, [0]) == "title";
    ReplaceShort("title", "{None}", "dc:");
  }

  /** No tag of that template is spelled `{None}title`. */
  lemma PlainDcNotFound()
    ensures Find(PlainDc(), "{None}title", Flat) == None
  {
    var root := PlainDc();
    assert Preorder(root.children[0]) == [];
    assert Preorder(root) == [[0]];
    assert Key(root, [0], Flat) == "title";
  }

  lemma WritesTitle()
    ensures Writes(Str("A title"))
  {
    assert Lower("A title")[0] == 'a';
  }

  /** An element without namespace cannot be found in flat mode: the query is
      spelled `{None}local`, which no tag matches. */
  lemma FlatNoNamespaceFails()
    ensures Fill(PlainDc(), [EntryOf(PlainDc(), [0])], 0, Flat, ["dc:title"], map["dc:title" := Str("A title")], "dc") ==
      Err(ElementNotFound("{None}title"))
  {
    var row := map["dc:title" := Str("A title")];
    var e := Entry("dc:title", "{None}title", None, "title");
    assert EntryOf(PlainDc(), [0]) == e by { PlainDcEntry(); }
    assert Query(Flat, e, "dc") == "{None}title" by { LastSegmentAfter("dc", "title", ':'); }
    assert CellAt(row, Column(Flat, e)) == Str("A title");
    assert Writes(Str("A title")) by { WritesTitle(); }
    assert Find(PlainDc(), "{None}title", Flat) == None by { PlainDcNotFound(); }
    assert Apply(PlainDc(), e, Flat, ["dc:title"], row, "dc") == Err(ElementNotFound("{None}title"));
  }
}
