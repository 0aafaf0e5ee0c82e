/** One pass of `main` over a reference (preservica_modify/pres_modify.py:400-448):
    the reconcilers on the entity itself, then for every template the fragment,
    the metadata upload and, for a folder, the propagation to its descendants
    under the `descendants` options. */
module Propagate {
  import opened Base
  import opened Cells
  import opened Xml
  import opened TreeMerge
  import opened Remote
  import opened Templates
  import opened Fragments
  import opened Reconcile

  /** The `descendants` options; Python's None is the empty set. */
  type Options = set<string>

  /** Which reconcilers run on one descendant. */
  datatype Ops = Ops(xml: bool, ident: bool, retention: bool, xip: bool)

  /** The membership tests of the descendant loop: assets need
      `include-assets`, folders `include-folders`; `include-all` stands for the
      other options on assets only, and folders never get a retention policy. */
  function OpsFor(opts: Options, k: Kind): (r: Ops)
    ensures r != Ops(false, false, false, false) ==>
      (k == Asset ==> "include-assets" in opts) && (k == Folder ==> "include-folders" in opts)
    ensures k == Folder ==> !r.retention
    ensures k == Folder ==> (r.xml <==> "include-folders" in opts && "include-xml" in opts)
    ensures k == Folder ==> (r.ident <==> "include-folders" in opts && "include-identifiers" in opts)
    ensures r.ident ==> "include-identifiers" in opts || (k == Asset && "include-all" in opts)
  {
    if k == Asset && "include-assets" in opts then
      Ops("include-xml" in opts || "include-all" in opts,
          "include-identifiers" in opts || "include-all" in opts,
          "include-retention" in opts || "include-all" in opts,
          "include-all" in opts || "include-title" in opts || "include-description" in opts ||
          "include-security" in opts)
    else if k == Folder && "include-folders" in opts then
      Ops("include-xml" in opts, "include-identifiers" in opts, false,
          "include-title" in opts || "include-description" in opts || "include-security" in opts)
    else Ops(false, false, false, false)
  }

  /** The masking of the carried `title, description, security` before a
      descendant's `xip_update`: a value survives only under its option, or for
      an asset's description and security also under `include-all`; a value
      never changes, it can only be dropped. */
  function Mask(opts: Options, k: Kind, t: Triple): (r: Triple)
    ensures r.title.Some? ==> r.title == t.title && "include-title" in opts
    ensures r.description.Some? ==>
      (r.description == t.description && ("include-description" in opts || (k == Asset && "include-all" in opts)))
    ensures r.security.Some? ==>
      (r.security == t.security && ("include-security" in opts || (k == Asset && "include-all" in opts)))
    ensures "include-title" in opts ==> r.title == t.title
    ensures "include-description" in opts ==> r.description == t.description
    ensures "include-security" in opts ==> r.security == t.security
  {
    var all := k == Asset && "include-all" in opts;
    Triple(if "include-title" in opts then t.title else None,
           if "include-description" in opts || all then t.description else None,
           if "include-security" in opts || all then t.security else None)
  }

  /** The option the command line offers as `include-identifier` is not the
      one the loop tests, so on its own it propagates no identifiers. */
  lemma IdentifierOptionMismatch()
    ensures !OpsFor({"include-assets", "include-identifier"}, Asset).ident
    ensures !OpsFor({"include-folders", "include-identifier"}, Folder).ident
  {
    assert "include-identifier" != "include-identifiers" by {
      assert |"include-identifier"| != |"include-identifiers"|;
    }
  }

  /** `include-all` does not carry titles: the title is dropped unless
      `include-title` is given as well. */
  lemma IncludeAllDropsTitle(t: Triple)
    requires t.title.Some?
    ensures Mask({"include-assets", "include-all"}, Asset, t).title == None
    ensures Mask({"include-assets", "include-all"}, Asset, t).description == t.description
  {
    assert "include-title" != "include-all" by { assert |"include-title"| != |"include-all"|; }
  }

  /** The settings the reconcilers consult (the change set's columns, the
      lookup mode, the two switches, the options, the column flags and the
      retention policies). */
  datatype Settings = Settings(headers: seq<string>, mode: Mode, blankOverride: bool, dummy: bool,
                               opts: Options, flags: InputFlags, policies: seq<RetentionPolicy>)

  /** `self.xnames = [x.get('XName') for x in xml.get('data')]`. */
  function XNames(es: seq<Entry>): (r: seq<string>)
    ensures |r| == |es| && forall k :: 0 <= k < |r| ==> r[k] == es[k].xname
  {
    seq(|es|, k requires 0 <= k < |es| => es[k].xname)
  }

  /** Blank-override never clears a template field without a namespace: lxml
      names such an element by its bare local name, but the index spells its
      `XName` `{None}local`, so the `b_child.tag in self.xnames` test fails. */
  lemma {:induction false} UnqualifiedNeverCleared(root: Node, es: seq<Entry>, tag: QName,
                                                   target: Option<string>, source: Option<string>)
    requires forall k :: 0 <= k < |es| ==> es[k] in Entries(root)
    requires tag.ns.None? && '{' !in tag.local
    ensures Clark(tag) !in XNames(es)
    ensures MergedText(target, source, tag, Policy(true, XNames(es))) ==
            MergedText(target, source, tag, Policy(false, XNames(es)))
  {
    PreorderValid(root);
    var order := Preorder(root);
    forall k | 0 <= k < |es| ensures XNames(es)[k] != Clark(tag) {
      var i :| 0 <= i < |Entries(root)| && Entries(root)[i] == es[k];
      assert es[k].xname == XName(At(root, order[i]).tag);
      assert XNames(es)[k][0] == '{';
    }
  }

  /** `retention_update` against the server. */
  function RetentionStep(s: State, ref: string, idx: seq<Row>, st: Settings): (r: Result<State, Failure>)
    requires ref in s.records
    ensures r.Ok? ==> OnlyTouches(s, r.value, ref)
  {
    var p := RetentionPlan(ref, idx, st.flags.retention, st.blankOverride, st.dummy,
                           s.records[ref].assignments, st.policies);
    RetentionNoChange(ref, idx, st.flags.retention, st.blankOverride, st.dummy,
                      s.records[ref].assignments, st.policies);
    if p.Err? then Err(p.error)
    else
      ExecOthers(s, p.value, ref);
      Ok(Exec(s, p.value))
  }

  /** `xip_update` against the server, for an entity whose local copy of the
      fields is `local` (as fetched). */
  function XipStep(s: State, ref: string, local: Fields, idx: seq<Row>, st: Settings, o: Triple): (r: Result<(Triple, State), Failure>)
    requires ref in s.records
    ensures r.Ok? ==> OnlyTouches(s, r.value.1, ref)
  {
    var v := XipValues(idx, st.flags, st.blankOverride, o);
    if v.Err? then Err(v.error)
    else
      var calls := XipCalls(ref, local, v.value, st.dummy);
      ExecOthers(s, calls, ref);
      Ok((v.value, Exec(s, calls)))
  }

  /** `ident_update` against the server: the calls made before a failure stand. */
  function IdentStep(s: State, ref: string, idx: seq<Row>, st: Settings): (r: (State, Option<Failure>))
    requires ref in s.records
    ensures OnlyTouches(s, r.0, ref)
  {
    var run := IdentPlan(s, ref, st.headers, idx, None, st.blankOverride, st.dummy);
    IdentPlanCalls(s, ref, st.headers, idx, None, st.blankOverride, st.dummy);
    ExecOthers(s, run.calls, ref);
    (Exec(s, run.calls), run.failure)
  }

  /** `xml_update` against the server. */
  function XmlStep(s: State, ref: string, ns: Option<string>, fragment: Option<Node>, p: Policy,
                   dummy: bool): (r: Result<State, Failure>)
    requires ref in s.records
    ensures r.Ok? ==> OnlyTouches(s, r.value, ref)
  {
    var m := MetadataPlan(ref, ns, Existing(s.records[ref], ns), fragment, p, dummy);
    if m.Err? then Err(m.error)
    else
      ExecOthers(s, m.value, ref);
      Ok(Exec(s, m.value))
  }

  /** What `main` threads through a reference: the server, `self.xml_new`,
      `self.xnames`, the carried triple, and the failure that aborted the run. */
  datatype Progress = Progress(server: State, fragment: Option<Node>, xnames: seq<string>,
                               carried: Triple, failure: Option<Failure>)

  /** One descendant, fetched afresh: the reconcilers its options select, in
      the source's order, the triple masked first when `xip_update` runs. */
  function DescendantStep(pr: Progress, d: string, idx: seq<Row>, ns: Option<string>, st: Settings): (r: Progress)
    requires d in pr.server.records
    ensures OnlyTouches(pr.server, r.server, d)
    ensures r.fragment == pr.fragment && r.xnames == pr.xnames
    ensures r.carried == pr.carried || r.carried == Mask(st.opts, pr.server.records[d].kind, pr.carried)
  {
    var s0 := pr.server;
    var k := s0.records[d].kind;
    var ops := OpsFor(st.opts, k);
    var r1 := if ops.xml then XmlStep(s0, d, ns, pr.fragment, Policy(st.blankOverride, pr.xnames), st.dummy) else Ok(s0);
    if r1.Err? then pr.(failure := Some(r1.error))
    else
      var id := if ops.ident then IdentStep(r1.value, d, idx, st) else (r1.value, None);
      var s2 := id.0;
      if id.1.Some? then pr.(server := s2, failure := id.1)
      else
        var r3 := if ops.retention then RetentionStep(s2, d, idx, st) else Ok(s2);
        if r3.Err? then pr.(server := s2, failure := Some(r3.error))
        else if !ops.xip then pr.(server := r3.value)
        else
          var t := Mask(st.opts, k, pr.carried);
          var x := XipStep(r3.value, d, s0.records[d].fields, idx, st, t);
          if x.Err? then pr.(server := r3.value, carried := t, failure := Some(x.error))
          else pr.(server := x.value.1, carried := t)
  }

  /** The descendant loop from the `j`-th descendant on; a failure ends it. */
  function DescendantsFrom(pr: Progress, ds: seq<string>, j: nat, idx: seq<Row>, ns: Option<string>,
                           st: Settings): (r: Progress)
    requires j <= |ds| && forall k :: 0 <= k < |ds| ==> ds[k] in pr.server.records
    ensures r.server.records.Keys == pr.server.records.Keys
    ensures r.fragment == pr.fragment && r.xnames == pr.xnames
    decreases |ds| - j
  {
    if pr.failure.Some? || j == |ds| then pr
    else DescendantsFrom(DescendantStep(pr, ds[j], idx, ns, st), ds, j + 1, idx, ns, st)
  }

  /** One template: its fragment, the upload to the entity, and for a folder
      with options the descendant loop. */
  function TemplateStep(pr: Progress, ref: string, kind: Kind, file: Descriptor, idx: seq<Row>,
                        ds: seq<string>, st: Settings): (r: Progress)
    requires ref in pr.server.records && forall k :: 0 <= k < |ds| ==> ds[k] in pr.server.records
    ensures r.server.records.Keys == pr.server.records.Keys
  {
    var g := Generate(file, st.mode, st.headers, idx, pr.fragment);
    if g.Err? then pr.(failure := Some(g.error))
    else
      var xn := XNames(file.data);
      var x := XmlStep(pr.server, ref, file.localNs, g.value, Policy(st.blankOverride, xn), st.dummy);
      if x.Err? then pr.(fragment := g.value, xnames := xn, failure := Some(x.error))
      else
        var pr1 := Progress(x.value, g.value, xn, pr.carried, None);
        if st.opts != {} && kind == Folder then DescendantsFrom(pr1, ds, 0, idx, file.localNs, st) else pr1
  }

  /** The template loop from the `i`-th template on; a failure ends it. */
  function TemplatesFrom(pr: Progress, ref: string, kind: Kind, files: seq<Descriptor>, i: nat, idx: seq<Row>,
                         ds: seq<string>, st: Settings): (r: Progress)
    requires i <= |files|
    requires ref in pr.server.records && forall k :: 0 <= k < |ds| ==> ds[k] in pr.server.records
    ensures r.server.records.Keys == pr.server.records.Keys
    decreases |files| - i
  {
    if pr.failure.Some? || i == |files| then pr
    else TemplatesFrom(TemplateStep(pr, ref, kind, files[i], idx, ds, st), ref, kind, files, i + 1, idx, ds, st)
  }

  /** The body of `main`'s loop for one reference: retention for an asset, the
      XIP fields (whose values are carried into the propagation), the
      identifiers, then the templates in index order. */
  function ProcessRef(s: State, ref: string, idx: seq<Row>, files: seq<Descriptor>, ds: seq<string>,
                      st: Settings, fragment: Option<Node>, xnames: seq<string>): (r: Progress)
    requires ref in s.records && forall k :: 0 <= k < |ds| ==> ds[k] in s.records
    ensures r.server.records.Keys == s.records.Keys
  {
    var kind := s.records[ref].kind;
    var none := Triple(None, None, None);
    var r1 := if kind == Asset then RetentionStep(s, ref, idx, st) else Ok(s);
    if r1.Err? then Progress(s, fragment, xnames, none, Some(r1.error))
    else
      var x := XipStep(r1.value, ref, s.records[ref].fields, idx, st, none);
      if x.Err? then Progress(r1.value, fragment, xnames, none, Some(x.error))
      else
        var id := IdentStep(x.value.1, ref, idx, st);
        var s3 := id.0;
        if id.1.Some? then Progress(s3, fragment, xnames, x.value.0, id.1)
        else TemplatesFrom(Progress(s3, fragment, xnames, x.value.0, None), ref, kind, files, 0, idx, ds, st)
  }

  // ---------------------------------------------------------------------------

  /** A descendant whose kind's option is absent is left alone. */
  lemma DescendantSkipped(pr: Progress, d: string, idx: seq<Row>, ns: Option<string>, st: Settings)
    requires d in pr.server.records
    requires var k := pr.server.records[d].kind;
      (k == Asset ==> "include-assets" !in st.opts) && (k == Folder ==> "include-folders" !in st.opts)
    ensures DescendantStep(pr, d, idx, ns, st) == pr
  {
  }

  /** A descendant's `xip_update` sees the masked triple; when masking left
      nothing truthy it falls back on the root's row, so a masked-out title
      can still be written from the row. */
  lemma MaskedFallsBackToRow(s: State, d: string, local: Fields, idx: seq<Row>, st: Settings, t: Triple, k: Kind)
    requires d in s.records && !AnyTruthy(Mask(st.opts, k, t))
    ensures XipStep(s, d, local, idx, st, Mask(st.opts, k, t)) == XipStep(s, d, local, idx, st, Triple(None, None, None))
  {
  }

  /** The carried triple only loses values along the descendant loop: each
      field ends as it started or as None. */
  lemma {:induction false} CarriedOnlyNarrows(pr: Progress, ds: seq<string>, j: nat, idx: seq<Row>,
                                             ns: Option<string>, st: Settings)
    requires j <= |ds| && forall k :: 0 <= k < |ds| ==> ds[k] in pr.server.records
    ensures var c := DescendantsFrom(pr, ds, j, idx, ns, st).carried;
      (c.title == pr.carried.title || c.title == None) &&
      (c.description == pr.carried.description || c.description == None) &&
      (c.security == pr.carried.security || c.security == None)
    decreases |ds| - j
  {
    if pr.failure.None? && j < |ds| {
      var next := DescendantStep(pr, ds[j], idx, ns, st);
      CarriedOnlyNarrows(next, ds, j + 1, idx, ns, st);
      assert DescendantsFrom(pr, ds, j, idx, ns, st) == DescendantsFrom(next, ds, j + 1, idx, ns, st);
    }
  }

  /** Once a field of the carried triple is dropped it stays dropped for the
      rest of the reference, across later descendants and templates. */
  lemma {:induction false} DroppedStaysDropped(pr: Progress, ref: string, kind: Kind, files: seq<Descriptor>,
                                              i: nat, idx: seq<Row>, ds: seq<string>, st: Settings)
    requires i <= |files|
    requires ref in pr.server.records && forall k :: 0 <= k < |ds| ==> ds[k] in pr.server.records
    ensures var c := TemplatesFrom(pr, ref, kind, files, i, idx, ds, st).carried;
      (pr.carried.title == None ==> c.title == None) &&
      (pr.carried.description == None ==> c.description == None) &&
      (pr.carried.security == None ==> c.security == None)
    decreases |files| - i
  {
    if pr.failure.None? && i < |files| {
      var next := TemplateStep(pr, ref, kind, files[i], idx, ds, st);
      var g := Generate(files[i], st.mode, st.headers, idx, pr.fragment);
      if g.Ok? {
        var xn := XNames(files[i].data);
        var x := XmlStep(pr.server, ref, files[i].localNs, g.value, Policy(st.blankOverride, xn), st.dummy);
        if x.Ok? && st.opts != {} && kind == Folder {
          CarriedOnlyNarrows(Progress(x.value, g.value, xn, pr.carried, None), ds, 0, idx, files[i].localNs, st);
        }
      }
      DroppedStaysDropped(next, ref, kind, files, i + 1, idx, ds, st);
    }
  }

  /** Every call the descendant loop makes names one of the descendants. */
  lemma {:induction false} DescendantCalls(pr: Progress, ds: seq<string>, j: nat, idx: seq<Row>,
                                          ns: Option<string>, st: Settings, other: string)
    requires j <= |ds| && forall k :: 0 <= k < |ds| ==> ds[k] in pr.server.records
    requires other in pr.server.records && other !in ds
    ensures var r := DescendantsFrom(pr, ds, j, idx, ns, st);
      other in r.server.records && r.server.records[other] == pr.server.records[other]
    decreases |ds| - j
  {
    if pr.failure.None? && j < |ds| {
      DescendantCalls(DescendantStep(pr, ds[j], idx, ns, st), ds, j + 1, idx, ns, st, other);
    }
  }

  /** Propagation happens inside the template loop: with no template indexed,
      no descendant is touched, whatever the options. */
  lemma NoTemplateNoPropagation(s: State, ref: string, idx: seq<Row>, ds: seq<string>, st: Settings,
                                fragment: Option<Node>, xnames: seq<string>)
    requires ref in s.records && forall k :: 0 <= k < |ds| ==> ds[k] in s.records
    ensures OnlyTouches(s, ProcessRef(s, ref, idx, [], ds, st, fragment, xnames).server, ref)
  {
  }

  /** With no row selected the template's fragment is not regenerated, and the
      fragment left over from an earlier reference or template is uploaded. */
  lemma StaleFragmentReused(pr: Progress, ref: string, kind: Kind, file: Descriptor, ds: seq<string>, st: Settings)
    requires ref in pr.server.records && forall k :: 0 <= k < |ds| ==> ds[k] in pr.server.records
    requires pr.fragment.Some?
    ensures var r := TemplateStep(pr, ref, kind, file, [], ds, st);
      r.fragment == pr.fragment &&
      (r.failure.None? && !st.dummy && (st.opts == {} || kind == Asset) ==>
        var ns := file.localNs;
        var e := Existing(pr.server.records[ref], ns);
        ref in r.server.records && ns in r.server.records[ref].metadata &&
        r.server.records[ref].metadata[ns] ==
          (if e.None? then pr.fragment.value else Merge(e.value, pr.fragment.value, Policy(st.blankOverride, XNames(file.data)))))
  {
    var ns := file.localNs;
    var e := Existing(pr.server.records[ref], ns);
    var m := MetadataPlan(ref, ns, e, pr.fragment, Policy(st.blankOverride, XNames(file.data)), st.dummy);
    if !st.dummy {
      ExecOne(pr.server, m.value[0]);
      assert m.value == [m.value[0]];
    }
  }
}
