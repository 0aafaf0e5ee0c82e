/** The `PreservicaMassMod` object of preservica_modify/pres_modify.py: its
    settings, the column flags, the template index and the fragment it keeps in
    fields, and its methods as the step-by-step procedures they are, each proved
    to compute what the plans of the other modules describe. The API clients
    become one `Catalog`; an entity fetched from it becomes an `Entity` whose
    fields `xip_update` assigns before saving. */
module Engine {
  import opened Base
  import opened Cells
  import opened Xml
  import opened TreeMerge
  import opened Remote
  import opened Templates
  import opened Fragments
  import opened Reconcile
  import opened Propagate

  /** A fetched asset or folder: its reference and kind, and its local copy of
      the title, description and security tag. */
  class Entity {
    const reference: string
    const kind: Kind
    var title: string
    var description: string
    var security: string

    /** `entity.asset(ref)`, `entity.folder(ref)` or `entity.entity(type, ref)`. */
    constructor Fetch(c: Catalog, ref: string)
      requires ref in c.records
      ensures reference == ref && kind == c.records[ref].kind && Local() == c.records[ref].fields
    {
      reference := ref;
      kind := c.records[ref].kind;
      title := c.records[ref].fields.title;
      description := c.records[ref].fields.description;
      security := c.records[ref].fields.security;
    }

    /** The fields `entity.save(e)` sends. */
    function Local(): Fields
      reads this
    {
      Fields(title, description, security)
    }
  }

  /** `Select` grows by one entry at a time. */
  lemma {:induction false} SelectSnoc(es: seq<Entry>, e: Entry, headers: seq<string>)
    ensures Select(es + [e], headers) == Select(es, headers) + (if Mapped(e, headers) then [e] else [])
    decreases |es|
  {
    if es == [] {
      assert [] + [e] == [e];
      assert [e][1..] == [];
    } else {
      assert (es + [e])[0] == es[0] && (es + [e])[1..] == es[1..] + [e];
      SelectSnoc(es[1..], e, headers);
    }
  }

  /** One column of `ident_update`'s loop: when the loop from column `k` on
      makes `calls` and then the loop from `k + 1` on, the calls made so far
      extend by `calls`. */
  lemma IdentAdvance(s0: State, done: seq<Call>, cur: State, calls: seq<Call>, ref: string, headers: seq<string>,
                     k: nat, idx: seq<Row>, keyOverride: Option<string>, blankOverride: bool, dummy: bool)
    requires k < |headers| && cur == Exec(s0, done) && ref in cur.records
    requires var here := IdentFrom(cur, ref, headers, k, idx, keyOverride, blankOverride, dummy);
      IdentFrom(s0, ref, headers, 0, idx, keyOverride, blankOverride, dummy) == Run(done + here.calls, here.failure)
    requires var next := IdentFrom(Exec(cur, calls), ref, headers, k + 1, idx, keyOverride, blankOverride, dummy);
      IdentFrom(cur, ref, headers, k, idx, keyOverride, blankOverride, dummy) == Run(calls + next.calls, next.failure)
    ensures var next := IdentFrom(Exec(cur, calls), ref, headers, k + 1, idx, keyOverride, blankOverride, dummy);
      Exec(cur, calls) == Exec(s0, done + calls) &&
      IdentFrom(s0, ref, headers, 0, idx, keyOverride, blankOverride, dummy) == Run(done + calls + next.calls, next.failure)
  {
    var next := IdentFrom(Exec(cur, calls), ref, headers, k + 1, idx, keyOverride, blankOverride, dummy);
    ExecAppend(s0, done, calls);
    assert done + (calls + next.calls) == done + calls + next.calls;
  }

  /** Removals grow by one call at a time. */
  lemma RemovalsSnoc(ref: string, ps: seq<RetentionPolicy>, k: nat)
    requires k < |ps|
    ensures Removals(ref, ps[..k + 1]) == Removals(ref, ps[..k]) + [RemoveAssignment(ref, ps[k])]
  {
  }

  class MassMod {
    const headers: seq<string>          // `self.column_headers`
    const mode: Mode                    // `self.metadata_flag`
    const blankOverride: bool
    const dummy: bool                   // `self.dummy_flag`
    const opts: Options                 // `self.descendants_flag`
    const catalog: Catalog              // `self.entity` and `self.retention`
    var titleFlag: bool
    var descriptionFlag: bool
    var securityFlag: bool
    var retentionFlag: bool
    var policies: seq<RetentionPolicy>  // `self.policy_dict`
    var xmlFiles: seq<Descriptor>
    var xmlNew: Option<Node>
    var xnames: seq<string>

    constructor (headers: seq<string>, mode: Mode, blankOverride: bool, dummy: bool, opts: Options,
                 catalog: Catalog)
      ensures this.headers == headers && this.mode == mode && this.blankOverride == blankOverride
      ensures this.dummy == dummy && this.opts == opts && this.catalog == catalog
      ensures Flags() == InputFlags(false, false, false, false) && policies == []
      ensures xmlFiles == [] && xmlNew == None && xnames == []
    {
      this.headers := headers;
      this.mode := mode;
      this.blankOverride := blankOverride;
      this.dummy := dummy;
      this.opts := opts;
      this.catalog := catalog;
      titleFlag, descriptionFlag, securityFlag, retentionFlag := false, false, false, false;
      policies := [];
      xmlFiles := [];
      xmlNew := None;
      xnames := [];
    }

    function Flags(): InputFlags
      reads this
    {
      InputFlags(titleFlag, descriptionFlag, securityFlag, retentionFlag)
    }

    /** What the reconcilers consult. */
    function Config(): Settings
      reads this
    {
      Settings(headers, mode, blankOverride, dummy, opts, Flags(), policies)
    }

    /** `set_input_flags`: one flag per fixed column present. */
    method SetInputFlags()
      modifies this
      ensures Flags() == FlagsFor(headers)
      ensures policies == old(policies) && xmlFiles == old(xmlFiles) && xmlNew == old(xmlNew) && xnames == old(xnames)
    {
      titleFlag := false;
      descriptionFlag := false;
      securityFlag := false;
      retentionFlag := false;
      if "Title" in headers { titleFlag := true; }
      if "Description" in headers { descriptionFlag := true; }
      if "Security" in headers { securityFlag := true; }
      if "Retention Policy" in headers { retentionFlag := true; }
    }

    /** `get_retentions`: the repository's policies, by name and reference. */
    method GetRetentions(available: seq<RetentionPolicy>)
      modifies this
      ensures policies == available
      ensures Flags() == old(Flags()) && xmlFiles == old(xmlFiles) && xmlNew == old(xmlNew) && xnames == old(xnames)
    {
      policies := available;
    }

    // -------------------------------------------------------------------------
    // The template index and the fragment

    /** `elements_list`: one entry per element below the root, in document order. */
    method ElementsList(root: Node) returns (elements: seq<Entry>)
      ensures elements == Entries(root)
    {
      PreorderValid(root);
      var addrs := Preorder(root);
      ghost var all := Entries(root);
      elements := [];
      var k := 0;
      while k < |addrs|
        invariant k <= |addrs|
        invariant elements == all[..k]
      {
        elements := elements + [EntryOf(root, addrs[k])];
        k := k + 1;
      }
      assert all[..k] == all;
    }

    /** `list_xml`: the entries whose flat name or path is a column. */
    method ListXml(elements: seq<Entry>) returns (listXml: seq<Entry>)
      ensures listXml == Select(elements, headers)
    {
      listXml := [];
      var k := 0;
      while k < |elements|
        invariant k <= |elements|
        invariant listXml == Select(elements[..k], headers)
      {
        SelectSnoc(elements[..k], elements[k], headers);
        assert elements[..k + 1] == elements[..k] + [elements[k]];
        if Mapped(elements[k], headers) {
          listXml := listXml + [elements[k]];
        }
        k := k + 1;
      }
      assert elements[..k] == elements;
    }

    /** The body of the directory loop for one parsed template. */
    method ScanTemplate(root: Node, file: string) returns (d: Descriptor)
      ensures d == Scan(root, file, headers)
    {
      var elements := ElementsList(root);
      var listXml := ListXml(elements);
      d := Descriptor(listXml, root.tag.local, root.tag.ns, file, root);
    }

    /** `init_generate_descriptive_metadata` over the directory listing `dir`. */
    method InitGenerateDescriptiveMetadata(dir: seq<DirEntry>) returns (err: Option<Failure>)
      modifies this
      ensures err.None? ==> TemplateIndex(dir, headers) == Ok(xmlFiles)
      ensures err.Some? ==> TemplateIndex(dir, headers) == Err(err.value)
      ensures Flags() == old(Flags()) && policies == old(policies) && xmlNew == old(xmlNew) && xnames == old(xnames)
    {
      xmlFiles := [];
      var current: Option<Descriptor> := None;
      var i := 0;
      while i < |dir|
        invariant i <= |dir|
        invariant TemplateIndex(dir, headers) == IndexFrom(dir, i, current, xmlFiles, headers)
        invariant Flags() == old(Flags()) && policies == old(policies) && xmlNew == old(xmlNew) && xnames == old(xnames)
      {
        var f := dir[i];
        if EndsWith(f.name, "xml") {
          if f.content.None? {
            return Some(UnreadableTemplate(f.name));
          }
          var d := ScanTemplate(f.content.value, f.name);
          current := Some(d);
        } else if current.None? {
          return Some(NoTemplateScanned);
        }
        if |current.value.data| > 0 {
          xmlFiles := xmlFiles + [current.value];
        }
        i := i + 1;
      }
      return None;
    }

    /** `generate_descriptive_metadata`: the template filled from the first
        selected row becomes `self.xml_new`. */
    method GenerateDescriptiveMetadata(idx: seq<Row>, d: Descriptor) returns (err: Option<Failure>)
      modifies this
      ensures var g := Generate(d, mode, headers, idx, old(xmlNew));
        (g.Ok? ==> err.None? && xmlNew == g.value) && (g.Err? ==> err == Some(g.error) && xmlNew == old(xmlNew))
      ensures Flags() == old(Flags()) && policies == old(policies) && xmlFiles == old(xmlFiles) && xnames == old(xnames)
    {
      if |d.data| > 0 && idx != [] {
        var row := idx[0];
        var tree := d.template;
        ghost var fill := Fill(d.template, d.data, 0, mode, headers, row, d.localName);
        var k := 0;
        while k < |d.data|
          invariant k <= |d.data|
          invariant fill == Fill(tree, d.data, k, mode, headers, row, d.localName)
        {
          var e := d.data[k];
          var col := Column(mode, e);
          if col !in headers {
            return Some(MissingColumn(col));
          }
          var c := CellAt(row, col);
          if Writes(c) {
            var q := Query(mode, e, d.localName);
            var target := Find(tree, q, mode);
            if target.None? {
              return Some(ElementNotFound(q));
            }
            tree := SetText(tree, target.value, Some(Fragments.Written(c)));
          }
          k := k + 1;
        }
        xmlNew := Some(tree);
      }
      return None;
    }

    // -------------------------------------------------------------------------
    // The reconcilers

    /** `xml_merge`: the children of `b` merged into `a`, recursing where a
        source child has children of its own. */
    method XmlMerge(a: Node, b: Node) returns (r: Node)
      ensures r == Merge(a, b, Policy(blankOverride, xnames))
      decreases b
    {
      ghost var p := Policy(blankOverride, xnames);
      var kids := a.children;
      var j := 0;
      while j < |b.children|
        invariant j <= |b.children|
        invariant MergeKids(a.children, b, 0, p) == MergeKids(kids, b, j, p)
      {
        var c := b.children[j];
        var i := FindTag(kids, c.tag);
        var child: Node;
        if i < |kids| {
          child := kids[i];
          ghost var merged := MergedText(child.text, c.text, c.tag, p);
          if child.text.Some? {
            if TextTruthy(c.text) {
              child := child.(text := c.text);
            } else if blankOverride && Clark(c.tag) in xnames {
              child := child.(text := None);
            }
          } else if TextTruthy(c.text) {
            child := child.(text := c.text);
          }
          assert child == kids[i].(text := merged);
        } else {
          child := Node(c.tag, if TextTruthy(c.text) then c.text else None, []);
          assert child == NewChild(c);
        }
        if c.children != [] {
          child := XmlMerge(child, c);
        }
        if i < |kids| {
          assert child == Updated(kids[i], c, p);
          kids := kids[i := child];
        } else {
          assert child == Created(c, p);
          kids := kids + [child];
        }
        j := j + 1;
      }
      r := a.(children := kids);
    }

    /** The outcome of a plan of calls: its failure, or its calls made. */
    ghost predicate Applied(s0: State, plan: Result<seq<Call>, Failure>, err: Option<Failure>)
      reads catalog
    {
      (plan.Err? ==> err == Some(plan.error) && catalog.Snapshot() == s0) &&
      (plan.Ok? ==> err.None? && catalog.Snapshot() == Exec(s0, plan.value))
    }

    /** The first half of `xip_update`: the truthy overrides, or else the
        row's cells for the columns present. */
    method XipRead(idx: seq<Row>, o: Triple) returns (r: Result<Triple, Failure>)
      ensures r == XipValues(idx, Flags(), blankOverride, o)
    {
      var title: PyValue := None;
      var description: PyValue := None;
      var security: PyValue := None;
      if PyTruthy(o.title) { title := o.title; }
      if PyTruthy(o.description) { description := o.description; }
      if PyTruthy(o.security) { security := o.security; }
      if !AnyTruthy(o) && idx != [] {
        if titleFlag {
          var c := Item(idx, "Title");
          if c.Err? { return Err(c.error); }
          title := if IsBlank(c.value) then None else Some(c.value);
        }
        if descriptionFlag {
          var c := Item(idx, "Description");
          if c.Err? { return Err(c.error); }
          description := if IsBlank(c.value) then None else Some(c.value);
          if IsSentinel(PyText(description)) && blankOverride {
            description := Some(Str(""));
          }
        }
        if securityFlag {
          var c := Item(idx, "Security");
          if c.Err? { return Err(c.error); }
          security := if IsBlank(c.value) then None else Some(c.value);
        }
      }
      return Ok(Triple(title, description, security));
    }

    /** `xip_update`: the values settled on, assigned to the entity unless this
        is a dry run, and saved when any is truthy. */
    method XipUpdate(idx: seq<Row>, e: Entity, o: Triple) returns (r: Result<Triple, Failure>)
      requires e.reference in catalog.records
      modifies e, catalog
      ensures r == XipValues(idx, Flags(), blankOverride, o)
      ensures r.Ok? ==> e.Local() == Assigned(old(e.Local()), r.value, dummy)
      ensures r.Ok? ==> catalog.Snapshot() == Exec(old(catalog.Snapshot()), XipCalls(e.reference, old(e.Local()), r.value, dummy))
      ensures r.Err? ==> e.Local() == old(e.Local()) && catalog.Snapshot() == old(catalog.Snapshot())
    {
      r := XipRead(idx, o);
      if r.Err? { return; }
      var v := r.value;
      if PyTruthy(v.title) && !dummy { e.title := Text(v.title.value); }
      if PyTruthy(v.description) && !dummy { e.description := Text(v.description.value); }
      if PyTruthy(v.security) && !dummy { e.security := Text(v.security.value); }
      if AnyTruthy(v) {
        catalog.Make(Save(e.reference, e.Local()));
      }
    }

    /** `ident_update`: the identifier columns in header order, each re-reading
        the entity's identifiers. */
    method IdentUpdate(idx: seq<Row>, e: Entity, keyOverride: Option<string>) returns (failure: Option<Failure>)
      requires e.reference in catalog.records
      modifies catalog
      ensures var run := IdentPlan(old(catalog.Snapshot()), e.reference, headers, idx, keyOverride, blankOverride, dummy);
        failure == run.failure && catalog.Snapshot() == Exec(old(catalog.Snapshot()), run.calls)
    {
      if idx == [] {
        return None;
      }
      var ref := e.reference;
      ghost var s0 := catalog.Snapshot();
      ghost var done: seq<Call> := [];
      var k := 0;
      while k < |headers|
        invariant k <= |headers|
        invariant catalog.Snapshot() == Exec(s0, done) && ref in catalog.records
        invariant var rest := IdentFrom(catalog.Snapshot(), ref, headers, k, idx, keyOverride, blankOverride, dummy);
          IdentFrom(s0, ref, headers, 0, idx, keyOverride, blankOverride, dummy) == Run(done + rest.calls, rest.failure)
      {
        ghost var cur := catalog.Snapshot();
        ghost var calls;
        failure, calls := IdentColumnStep(idx, ref, k, keyOverride);
        if failure.Some? {
          assert done + [] == done;
          return;
        }
        IdentAdvance(s0, done, cur, calls, ref, headers, k, idx, keyOverride, blankOverride, dummy);
        done := done + calls;
        k := k + 1;
      }
      assert done + [] == done;
      return None;
    }

    /** Column `k` of `ident_update`'s loop: a non-identifier column does
        nothing; an identifier column reads its cell (failing unless one row is
        selected) and makes the calls `calls` of `Reconcile.IdentCalls`. */
    method IdentColumnStep(idx: seq<Row>, ref: string, k: nat, keyOverride: Option<string>)
      returns (failure: Option<Failure>, ghost calls: seq<Call>)
      requires k < |headers| && ref in catalog.records
      modifies catalog
      ensures ref in catalog.records
      ensures var here := IdentFrom(old(catalog.Snapshot()), ref, headers, k, idx, keyOverride, blankOverride, dummy);
        failure.Some? ==> here == Run([], failure) && catalog.Snapshot() == old(catalog.Snapshot())
      ensures var here := IdentFrom(old(catalog.Snapshot()), ref, headers, k, idx, keyOverride, blankOverride, dummy);
        var next := IdentFrom(catalog.Snapshot(), ref, headers, k + 1, idx, keyOverride, blankOverride, dummy);
        failure.None? ==>
          catalog.Snapshot() == Exec(old(catalog.Snapshot()), calls) && here == Run(calls + next.calls, next.failure)
    {
      calls := [];
      failure := None;
      var h := headers[k];
      if IdentColumn(h) {
        var cell := Item(idx, h);
        if cell.Err? {
          return Some(cell.error), [];
        }
        var key := KeyName(h, keyOverride);
        var action := Action(cell.value, blankOverride);
        calls := IdentCalls(ref, key, action, dummy, catalog.records[ref].identifiers);
        IdentColumnUpdate(ref, key, action);
      } else {
        assert [] + IdentFrom(catalog.Snapshot(), ref, headers, k + 1, idx, keyOverride, blankOverride, dummy).calls ==
          IdentFrom(catalog.Snapshot(), ref, headers, k + 1, idx, keyOverride, blankOverride, dummy).calls;
      }
    }

    /** The body of `ident_update`'s loop for one identifier column whose cell
        asks for `action` on identifier type `key`. */
    method IdentColumnUpdate(ref: string, key: string, action: IdentAction)
      requires ref in catalog.records
      modifies catalog
      ensures catalog.Snapshot() ==
        Exec(old(catalog.Snapshot()), IdentCalls(ref, key, action, dummy, old(catalog.records[ref].identifiers)))
    {
      var ids := catalog.records[ref].identifiers;
      if action.Delete? {
        if HasKey(ids, key) && !dummy {
          catalog.Make(UpdateIdentifiers(ref, key, "False"));
        }
      } else if action.Put? {
        if HasKey(ids, key) {
          if !dummy { catalog.Make(UpdateIdentifiers(ref, key, action.value)); }
        } else if !dummy {
          catalog.Make(AddIdentifier(ref, key, action.value));
        }
      }
    }

    /** The removal loop of `retention_update`: every current assignment, in
        order, unless this is a dry run. */
    method RemoveAssignments(ref: string, assignments: seq<RetentionPolicy>)
      modifies catalog
      ensures catalog.Snapshot() == Exec(old(catalog.Snapshot()), if dummy then [] else Removals(ref, assignments))
    {
      ghost var s0 := catalog.Snapshot();
      for k := 0 to |assignments|
        invariant catalog.Snapshot() == Exec(s0, if dummy then [] else Removals(ref, assignments[..k]))
      {
        if !dummy {
          RemovalsSnoc(ref, assignments, k);
          ExecAppend(s0, Removals(ref, assignments[..k]), [RemoveAssignment(ref, assignments[k])]);
          catalog.Make(RemoveAssignment(ref, assignments[k]));
        }
      }
      assert assignments[..|assignments|] == assignments;
    }

    /** `retention_update`. */
    method RetentionUpdate(idx: seq<Row>, e: Entity) returns (err: Option<Failure>)
      requires e.reference in catalog.records
      modifies catalog
      ensures Applied(old(catalog.Snapshot()),
        RetentionPlan(e.reference, idx, retentionFlag, blankOverride, dummy,
                      old(catalog.records[e.reference].assignments), policies), err)
    {
      if idx == [] || !retentionFlag {
        return None;
      }
      var rp := Item(idx, "Retention Policy");
      if rp.Err? {
        return Some(rp.error);
      }
      var assignments := catalog.records[e.reference].assignments;
      if IsBlank(rp.value) && blankOverride {
        RemoveAssignments(e.reference, assignments);
      } else if !IsBlank(rp.value) {
        var d := Matching(policies, rp.value);
        if |d| == 1 {
          ghost var s0 := catalog.Snapshot();
          RemoveAssignments(e.reference, assignments);
          if !dummy {
            ExecAppend(s0, Removals(e.reference, assignments), [AddAssignment(e.reference, d[0])]);
            catalog.Make(AddAssignment(e.reference, d[0]));
          }
        }
      }
      return None;
    }

    /** `xml_update`: the fragment added, or merged into the entity's document
        in the template's namespace and uploaded. */
    method XmlUpdate(e: Entity, ns: Option<string>) returns (err: Option<Failure>)
      requires e.reference in catalog.records
      modifies catalog
      ensures Applied(old(catalog.Snapshot()),
        MetadataPlan(e.reference, ns, Existing(old(catalog.records[e.reference]), ns), xmlNew,
                     Policy(blankOverride, xnames), dummy), err)
    {
      var emeta := Existing(catalog.records[e.reference], ns);
      if xmlNew.None? {
        return Some(NoFragment);
      }
      if emeta.None? {
        if !dummy { catalog.Make(AddMetadata(e.reference, ns, xmlNew.value)); }
      } else {
        var merged := XmlMerge(emeta.value, xmlNew.value);
        if !dummy { catalog.Make(UpdateMetadata(e.reference, ns, merged)); }
      }
      return None;
    }

    // -------------------------------------------------------------------------
    // The body of `main` for one reference

    /** The first reconcilers on a descendant: the metadata upload, then the
        identifiers, each when its option is given. */
    method DescendantHead(de: Entity, idx: seq<Row>, ns: Option<string>, ops: Ops) returns (failure: Option<Failure>)
      requires de.reference in catalog.records
      modifies catalog
      ensures var s0 := old(catalog.Snapshot());
        var r1 := if ops.xml then XmlStep(s0, de.reference, ns, xmlNew, Policy(blankOverride, xnames), dummy) else Ok(s0);
        if r1.Err? then failure == Some(r1.error) && catalog.Snapshot() == s0
        else
          var id := if ops.ident then IdentStep(r1.value, de.reference, idx, Config()) else (r1.value, None);
          catalog.Snapshot() == id.0 && failure == id.1
    {
      failure := None;
      if ops.xml {
        failure := XmlUpdate(de, ns);
        if failure.Some? { return; }
      }
      if ops.ident {
        failure := IdentUpdate(idx, de, None);
      }
    }

    /** The last reconcilers on a descendant: the retention policy, then the
        XIP fields with the carried triple masked by the options. */
    method DescendantTail(de: Entity, idx: seq<Row>, ops: Ops, carried: Triple)
      returns (out: Triple, failure: Option<Failure>)
      requires de.reference in catalog.records
      modifies de, catalog
      ensures var s2 := old(catalog.Snapshot());
        var r3 := if ops.retention then RetentionStep(s2, de.reference, idx, Config()) else Ok(s2);
        if r3.Err? then failure == Some(r3.error) && catalog.Snapshot() == s2 && out == carried
        else if !ops.xip then failure.None? && catalog.Snapshot() == r3.value && out == carried
        else
          var x := XipStep(r3.value, de.reference, old(de.Local()), idx, Config(), Mask(opts, de.kind, carried));
          out == Mask(opts, de.kind, carried) &&
          (x.Err? ==> failure == Some(x.error) && catalog.Snapshot() == r3.value) &&
          (x.Ok? ==> failure.None? && catalog.Snapshot() == x.value.1)
    {
      out := carried;
      failure := None;
      if ops.retention {
        failure := RetentionUpdate(idx, de);
        if failure.Some? { return; }
      }
      if ops.xip {
        out := Mask(opts, de.kind, carried);
        var x := XipUpdate(idx, de, out);
        if x.Err? { failure := Some(x.error); }
      }
    }

    /** One descendant of a folder, fetched afresh, with the reconcilers its
        kind and the options select. */
    method ProcessDescendant(d: string, idx: seq<Row>, ns: Option<string>, carried: Triple)
      returns (out: Triple, failure: Option<Failure>)
      requires d in catalog.records
      modifies catalog
      ensures var r := DescendantStep(Progress(old(catalog.Snapshot()), xmlNew, xnames, carried, None), d, idx, ns, Config());
        catalog.Snapshot() == r.server && out == r.carried && failure == r.failure
    {
      var de := new Entity.Fetch(catalog, d);
      var ops := OpsFor(opts, de.kind);
      out := carried;
      failure := DescendantHead(de, idx, ns, ops);
      if failure.Some? { return; }
      out, failure := DescendantTail(de, idx, ops, carried);
    }

    /** One template: the fragment, the upload to `e`, and for a folder with
        options the descendants `ds` in order. */
    method ProcessTemplate(e: Entity, i: nat, idx: seq<Row>, ds: seq<string>, carried: Triple)
      returns (out: Triple, failure: Option<Failure>)
      requires i < |xmlFiles| && e.reference in catalog.records
      requires forall k :: 0 <= k < |ds| ==> ds[k] in catalog.records
      modifies this, catalog
      ensures var r := TemplateStep(Progress(old(catalog.Snapshot()), old(xmlNew), old(xnames), carried, None),
                                    e.reference, e.kind, old(xmlFiles)[i], idx, ds, old(Config()));
        catalog.Snapshot() == r.server && xmlNew == r.fragment && xnames == r.xnames &&
        out == r.carried && failure == r.failure
      ensures Config() == old(Config()) && xmlFiles == old(xmlFiles)
    {
      var file := xmlFiles[i];
      out := carried;
      failure := GenerateDescriptiveMetadata(idx, file);
      if failure.Some? { return; }
      var ns := file.localNs;
      xnames := XNames(file.data);
      failure := XmlUpdate(e, ns);
      if failure.Some? { return; }
      if opts != {} && e.kind == Folder {
        out, failure := ProcessDescendants(idx, ds, ns, carried);
      }
    }

    /** The descendant loop of one template, in listing order, ending at the
        first failure. */
    method ProcessDescendants(idx: seq<Row>, ds: seq<string>, ns: Option<string>, carried: Triple)
      returns (out: Triple, failure: Option<Failure>)
      requires forall k :: 0 <= k < |ds| ==> ds[k] in catalog.records
      modifies catalog
      ensures var r := DescendantsFrom(Progress(old(catalog.Snapshot()), xmlNew, xnames, carried, None), ds, 0, idx, ns, Config());
        catalog.Snapshot() == r.server && out == r.carried && failure == r.failure
    {
      ghost var pr0 := Progress(catalog.Snapshot(), xmlNew, xnames, carried, None);
      out := carried;
      failure := None;
      var j := 0;
      while j < |ds|
        invariant j <= |ds| && failure.None?
        invariant forall k :: 0 <= k < |ds| ==> ds[k] in catalog.records
        invariant DescendantsFrom(pr0, ds, 0, idx, ns, Config()) ==
          DescendantsFrom(Progress(catalog.Snapshot(), xmlNew, xnames, out, None), ds, j, idx, ns, Config())
      {
        out, failure := ProcessDescendant(ds[j], idx, ns, out);
        if failure.Some? { return; }
        j := j + 1;
      }
    }

    /** `main`'s loop body for the reference `ref`, selecting the rows `idx`,
        whose descendants (for a folder) are `ds`. */
    method ProcessReference(ref: string, idx: seq<Row>, ds: seq<string>) returns (failure: Option<Failure>)
      requires ref in catalog.records && forall k :: 0 <= k < |ds| ==> ds[k] in catalog.records
      modifies this, catalog
      ensures var r := ProcessRef(old(catalog.Snapshot()), ref, idx, old(xmlFiles), ds, old(Config()),
                                  old(xmlNew), old(xnames));
        catalog.Snapshot() == r.server && xmlNew == r.fragment && xnames == r.xnames && failure == r.failure
      ensures Config() == old(Config()) && xmlFiles == old(xmlFiles)
    {
      var e := new Entity.Fetch(catalog, ref);
      if e.kind == Asset {
        failure := RetentionUpdate(idx, e);
        if failure.Some? { return; }
      }
      var x := XipUpdate(idx, e, Triple(None, None, None));
      if x.Err? {
        return Some(x.error);
      }
      var carried := x.value;
      failure := IdentUpdate(idx, e, None);
      if failure.Some? { return; }
      failure := ProcessTemplates(e, idx, ds, carried);
    }

    /** The template loop of `main` for the entity `e`, in index order, ending
        at the first failure. */
    method ProcessTemplates(e: Entity, idx: seq<Row>, ds: seq<string>, carried: Triple) returns (failure: Option<Failure>)
      requires e.reference in catalog.records && forall k :: 0 <= k < |ds| ==> ds[k] in catalog.records
      modifies this, catalog
      ensures var r := TemplatesFrom(Progress(old(catalog.Snapshot()), old(xmlNew), old(xnames), carried, None),
                                     e.reference, e.kind, old(xmlFiles), 0, idx, ds, old(Config()));
        catalog.Snapshot() == r.server && xmlNew == r.fragment && xnames == r.xnames && failure == r.failure
      ensures Config() == old(Config()) && xmlFiles == old(xmlFiles)
    {
      ghost var pr0 := Progress(catalog.Snapshot(), xmlNew, xnames, carried, None);
      var out := carried;
      failure := None;
      var i := 0;
      while i < |xmlFiles|
        invariant i <= |xmlFiles| && failure.None?
        invariant e.reference in catalog.records && forall k :: 0 <= k < |ds| ==> ds[k] in catalog.records
        invariant Config() == old(Config()) && xmlFiles == old(xmlFiles)
        invariant TemplatesFrom(pr0, e.reference, e.kind, xmlFiles, 0, idx, ds, Config()) ==
          TemplatesFrom(Progress(catalog.Snapshot(), xmlNew, xnames, out, None), e.reference, e.kind, xmlFiles, i, idx, ds, Config())
      {
        out, failure := ProcessTemplate(e, i, idx, ds, out);
        if failure.Some? { return; }
        i := i + 1;
      }
    }
  }
}
