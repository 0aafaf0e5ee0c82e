/** The template index (`init_generate_descriptive_metadata`,
    preservica_modify/pres_modify.py:274-304): for every XML template in the
    metadata directory, the elements whose flat name or rewritten path is a
    column of the change set. */
module Templates {
  import opened Base
  import opened Cells
  import opened Xml

  /** One element of a template: `Name`, `XName`, `Namespace` and `Path`. */
  datatype Entry = Entry(name: string, xname: string, ns: Option<string>, path: string)

  /** One `xml_files` item: the matched entries, the root's local name and
      namespace, the file, and the template's tree (which generation re-reads). */
  datatype Descriptor = Descriptor(data: seq<Entry>, localName: string, localNs: Option<string>,
                                   file: string, template: Node)

  /** A directory entry: its name and, when it parses as XML, its tree. */
  datatype DirEntry = DirEntry(name: string, content: Option<Node>)

  /** `{ns}` as the path rewrite spells an element's namespace. */
  function Braced(ns: Option<string>): (r: string)
    ensures |r| >= 2 && r[0] == '{'
  {
    "{" + NsText(ns) + "}"
  }

  /** The entry recorded for the element at address `a` below `root`. */
  function EntryOf(root: Node, a: Address): Entry
    requires ValidAddress(root, a)
  {
    var t := At(root, a).tag;
    var rl := root.tag.local;
    Entry(rl + ":" + t.local, XName(t), t.ns, Replace(ElementPath(root, a), Braced(t.ns), rl + ":"))
  }

  /** `elements_list`: one entry per element below the root, in document order. */
  function Entries(root: Node): (r: seq<Entry>)
    ensures |r| == |Preorder(root)|
  {
    PreorderValid(root);
    var addrs := Preorder(root);
    seq(|addrs|, k requires 0 <= k < |addrs| => EntryOf(root, addrs[k]))
  }

  /** The element is kept when its flat name or its path is a column header. */
  predicate Mapped(e: Entry, headers: seq<string>)
  {
    e.name in headers || e.path in headers
  }

  /** `list_xml`: the mapped entries, in order. */
  function Select(es: seq<Entry>, headers: seq<string>): (r: seq<Entry>)
    ensures forall e :: e in r <==> e in es && Mapped(e, headers)
    ensures |r| <= |es|
  {
    if es == [] then []
    else (if Mapped(es[0], headers) then [es[0]] else []) + Select(es[1..], headers)
  }

  /** The descriptor built from one parsed template. */
  function Scan(root: Node, file: string, headers: seq<string>): Descriptor
  {
    Descriptor(Select(Entries(root), headers), root.tag.local, root.tag.ns, file, root)
  }

  /** The directory loop from entry `i` on. `current` is the descriptor of the
      last template parsed (Python's `list_xml`, `root_element_ln`, ... survive
      the loop body): the `len(list_xml) > 0` test runs for every directory entry,
      so an entry that does not end in `xml` re-appends the last template, and
      fails when no template has been parsed yet. */
  function IndexFrom(dir: seq<DirEntry>, i: nat, current: Option<Descriptor>, acc: seq<Descriptor>,
                     headers: seq<string>): Result<seq<Descriptor>, Failure>
    requires i <= |dir|
    decreases |dir| - i
  {
    if i == |dir| then Ok(acc)
    else
      var f := dir[i];
      if EndsWith(f.name, "xml") && f.content.None? then Err(UnreadableTemplate(f.name))
      else if !EndsWith(f.name, "xml") && current.None? then Err(NoTemplateScanned)
      else
        var d := if EndsWith(f.name, "xml") then Scan(f.content.value, f.name, headers) else current.value;
        IndexFrom(dir, i + 1, Some(d), if |d.data| > 0 then acc + [d] else acc, headers)
  }

  /** `self.xml_files` after the directory scan, or why it failed. */
  function TemplateIndex(dir: seq<DirEntry>, headers: seq<string>): Result<seq<Descriptor>, Failure>
  {
    IndexFrom(dir, 0, None, [], headers)
  }

  // ---------------------------------------------------------------------------

  /** Every directory entry names an XML file that parses. */
  predicate AllTemplates(dir: seq<DirEntry>)
  {
    forall k :: 0 <= k < |dir| ==> EndsWith(dir[k].name, "xml") && dir[k].content.Some?
  }

  /** The descriptors of the templates with at least one match, in directory order. */
  function Kept(dir: seq<DirEntry>, headers: seq<string>): seq<Descriptor>
    requires AllTemplates(dir)
  {
    if dir == [] then []
    else
      var d := Scan(dir[0].content.value, dir[0].name, headers);
      (if |d.data| > 0 then [d] else []) + Kept(dir[1..], headers)
  }

  /** When the directory holds only templates, the index is exactly the
      templates with at least one mapped element, each scanned once, in order. */
  lemma TemplatesOnly(dir: seq<DirEntry>, headers: seq<string>)
    requires AllTemplates(dir)
    ensures TemplateIndex(dir, headers) == Ok(Kept(dir, headers))
  {
    IndexFromTemplates(dir, 0, None, [], headers);
    assert dir[0..] == dir;
    assert [] + Kept(dir, headers) == Kept(dir, headers);
  }

  lemma {:induction false} IndexFromTemplates(dir: seq<DirEntry>, i: nat, current: Option<Descriptor>,
                                              acc: seq<Descriptor>, headers: seq<string>)
    requires i <= |dir| && AllTemplates(dir)
    ensures AllTemplates(dir[i..])
    ensures IndexFrom(dir, i, current, acc, headers) == Ok(acc + Kept(dir[i..], headers))
    decreases |dir| - i
  {
    if i == |dir| {
      assert acc + [] == acc;
    } else {
      var d := Scan(dir[i].content.value, dir[i].name, headers);
      var acc' := if |d.data| > 0 then acc + [d] else acc;
      IndexFromTemplates(dir, i + 1, Some(d), acc', headers);
      assert IndexFrom(dir, i, current, acc, headers) == IndexFrom(dir, i + 1, Some(d), acc', headers);
      KeptStep(dir, i, headers);
      AppendRegroup(acc, if |d.data| > 0 then [d] else [], Kept(dir[i + 1..], headers));
      assert acc' == acc + (if |d.data| > 0 then [d] else []);
    }
  }

  /** `Kept` from entry `i` is entry `i`'s contribution followed by `Kept` from `i + 1`. */
  lemma KeptStep(dir: seq<DirEntry>, i: nat, headers: seq<string>)
    requires i < |dir| && AllTemplates(dir)
    ensures AllTemplates(dir[i..]) && AllTemplates(dir[i + 1..])
    ensures var d := Scan(dir[i].content.value, dir[i].name, headers);
      Kept(dir[i..], headers) == (if |d.data| > 0 then [d] else []) + Kept(dir[i + 1..], headers)
  {
    assert dir[i..][1..] == dir[i + 1..];
  }

  /** Whatever the directory holds, every indexed template has at least one
      entry, every entry is mapped, and every entry comes from an element of
      that template. */
  lemma IndexEntriesMapped(dir: seq<DirEntry>, headers: seq<string>)
    requires TemplateIndex(dir, headers).Ok?
    ensures forall d :: d in TemplateIndex(dir, headers).value ==>
      |d.data| > 0 &&
      forall e :: e in d.data ==> Mapped(e, headers) && e in Entries(d.template)
  {
    IndexFromMapped(dir, 0, None, [], headers);
  }

  predicate GoodDescriptor(d: Descriptor, headers: seq<string>)
  {
    forall e :: e in d.data ==> Mapped(e, headers) && e in Entries(d.template)
  }

  lemma {:induction false} IndexFromMapped(dir: seq<DirEntry>, i: nat, current: Option<Descriptor>,
                                           acc: seq<Descriptor>, headers: seq<string>)
    requires i <= |dir|
    requires current.Some? ==> GoodDescriptor(current.value, headers)
    requires forall d :: d in acc ==> |d.data| > 0 && GoodDescriptor(d, headers)
    requires IndexFrom(dir, i, current, acc, headers).Ok?
    ensures forall d :: d in IndexFrom(dir, i, current, acc, headers).value ==>
      |d.data| > 0 && GoodDescriptor(d, headers)
    decreases |dir| - i
  {
    if i < |dir| {
      var f := dir[i];
      var d := if EndsWith(f.name, "xml") then Scan(f.content.value, f.name, headers) else current.value;
      IndexFromMapped(dir, i + 1, Some(d), if |d.data| > 0 then acc + [d] else acc, headers);
    }
  }

  /** A directory whose first entry is not an XML file fails: the loop reads
      `list_xml` before any template was scanned. */
  lemma FirstNotTemplate(dir: seq<DirEntry>, headers: seq<string>)
    requires |dir| > 0 && !EndsWith(dir[0].name, "xml")
    ensures TemplateIndex(dir, headers) == Err(NoTemplateScanned)
  {
  }

  /** A template with its title element, as a concrete witness. */
  function Dc(): Node
  {
    Node(QName(Some("u"), "dc"), None, [Node(QName(Some("u"), "title"), None, [])])
  }

  /** An entry that does not end in `xml` after a matched template re-appends
      that template: the index then lists it twice. */
  lemma StaleTemplateRepeated()
    ensures var dir := [DirEntry("a.xml", Some(Dc())), DirEntry("notes.txt", None)];
      var d := Scan(Dc(), "a.xml", ["dc:title"]);
      |d.data| == 1 && TemplateIndex(dir, ["dc:title"]) == Ok([d, d])
  {
    var root := Dc();
    assert Preorder(root.children[0]) == [];
    assert Preorder(root) == [[0]];
    assert EntryOf(root, [0]).name == "dc:title";
    assert Entries(root) == [EntryOf(root, [0])];
    assert Mapped(EntryOf(root, [0]), ["dc:title"]);
    var d := Scan(root, "a.xml", ["dc:title"]);
    assert d.data == [EntryOf(root, [0])];
    var dir := [DirEntry("a.xml", Some(Dc())), DirEntry("notes.txt", None)];
    assert !EndsWith("notes.txt", "xml") by { assert "notes.txt"[6..] == "txt"; }
    assert EndsWith("a.xml", "xml") by { assert "a.xml"[2..] == "xml"; }
    assert IndexFrom(dir, 2, Some(d), [d, d], ["dc:title"]) == Ok([d, d]);
    assert |d.data| > 0 && [d] + [d] == [d, d] && [] + [d] == [d];
    assert dir[1].name == "notes.txt" && dir[0] == DirEntry("a.xml", Some(root));
    assert IndexFrom(dir, 1, Some(d), [d], ["dc:title"]) == Ok([d, d]);
    assert IndexFrom(dir, 0, None, [], ["dc:title"]) == Ok([d, d]);
  }

  // ---------------------------------------------------------------------------
  // Reading an entry back: the exact-mode path and the flat-mode name.

  /** The lookup path generation builds from an entry in exact mode
      (pres_modify.py:346): `root:` turned back into `{ns}`. */
  function ExactQuery(e: Entry, localName: string): string
  {
    Replace(e.path, localName + ":", Braced(e.ns))
  }

  /** The tag generation searches for in flat mode (pres_modify.py:349-350):
      `{ns}` and the text after the last `:` of the flat name. */
  function FlatQuery(e: Entry): string
  {
    Braced(e.ns) + LastSegment(e.name, ':')
  }

  /** A local name fit for the path rewrite: no `:` and no `{`, as XML names. */
  predicate PlainLocal(l: string)
  {
    ':' !in l && '{' !in l
  }

  /** Every element on the way to address `a` is in namespace `u` and has a
      plain local name. */
  predicate OnePathNamespace(n: Node, a: Address, u: string)
    requires ValidAddress(n, a)
    decreases |a|
  {
    a == [] ||
    (n.children[a[0]].tag.ns == Some(u) && PlainLocal(n.children[a[0]].tag.local) &&
     OnePathNamespace(n.children[a[0]], a[1..], u))
  }

  /** The element path's steps after their namespace prefix. */
  function Words(n: Node, a: Address): (r: seq<string>)
    requires ValidAddress(n, a)
    ensures |r| == |a|
    decreases |a|
  {
    if a == [] then []
    else [n.children[a[0]].tag.local + Suffix(n.children, a[0])] + Words(n.children[a[0]], a[1..])
  }

  lemma {:induction false} StepsInNamespace(n: Node, a: Address, u: string)
    requires ValidAddress(n, a) && OnePathNamespace(n, a, u)
    ensures PathSteps(n, a) == Prefixed("{" + u + "}", Words(n, a))
    ensures forall k :: 0 <= k < |a| ==> PlainLocal(Words(n, a)[k])
    ensures a != [] ==> At(n, a).tag.ns == Some(u)
    decreases |a|
  {
    if a != [] {
      var c := n.children[a[0]];
      StepsInNamespace(c, a[1..], u);
      var w := c.tag.local + Suffix(n.children, a[0]);
      assert PlainLocal(w) by {
        var sfx := Suffix(n.children, a[0]);
        assert forall k :: 0 <= k < |sfx| ==> sfx[k] != ':' && sfx[k] != '{';
        assert forall k :: |c.tag.local| <= k < |w| ==> w[k] == sfx[k - |c.tag.local|];
      }
      assert StepText(n.children, a[0]) == "{" + u + "}" + w;
    }
  }

  /** Exact-mode round trip: for an element whose path stays in one namespace
      (with plain local names) under a root whose local name has no `:`, the
      lookup path rebuilt from its entry is its own element path. */
  lemma ExactRoundTrip(root: Node, a: Address, u: string)
    requires ValidAddress(root, a) && a != []
    requires OnePathNamespace(root, a, u) && ':' !in root.tag.local
    ensures ExactQuery(EntryOf(root, a), root.tag.local) == ElementPath(root, a)
  {
    var rl := root.tag.local;
    var ws := Words(root, a);
    StepsInNamespace(root, a, u);
    var open_ := "{" + u + "}";
    assert Braced(At(root, a).tag.ns) == open_;
    assert open_[0] == '{' && open_[..0] == [];
    ReplaceStepHeads(ws, open_, rl + ":", 0);
    var colon := rl + ":";
    assert colon[|rl|] == ':' && colon[..|rl|] == rl;
    ReplaceStepHeads(ws, colon, open_, |rl|);
  }

  /** Flat-mode lookup: the searched tag is the element's own `{ns}local` when
      its local name has no `:` and it has a namespace. */
  lemma FlatQueryIsTag(root: Node, a: Address)
    requires ValidAddress(root, a)
    requires ':' !in At(root, a).tag.local && At(root, a).tag.ns.Some?
    ensures FlatQuery(EntryOf(root, a)) == Clark(At(root, a).tag)
  {
    var t := At(root, a).tag;
    LastSegmentAfter(root.tag.local, t.local, ':');
  }
}
