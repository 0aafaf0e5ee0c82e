/** The per-entity reconcilers of preservica_modify/pres_modify.py: the XIP
    fields (`xip_update`), the identifiers (`ident_update`), the retention
    policy (`retention_update`) and the descriptive metadata upload
    (`xml_update`). Each is a plan: the remote calls it makes for a row, the
    settings and the entity's remote state, and the failure that aborts it. */
module Reconcile {
  import opened Base
  import opened Cells
  import opened Xml
  import opened TreeMerge
  import opened Remote

  /** Which of the fixed columns the change set has (`set_input_flags`). */
  datatype InputFlags = InputFlags(title: bool, description: bool, security: bool, retention: bool)

  function FlagsFor(headers: seq<string>): InputFlags
  {
    InputFlags("Title" in headers, "Description" in headers, "Security" in headers,
               "Retention Policy" in headers)
  }

  // ---------------------------------------------------------------------------
  // xip_update

  /** The `title, description, security` values `xip_update` takes as overrides
      and returns. */
  datatype Triple = Triple(title: PyValue, description: PyValue, security: PyValue)

  predicate AnyTruthy(t: Triple)
  {
    PyTruthy(t.title) || PyTruthy(t.description) || PyTruthy(t.security)
  }

  /** An override is used only when it is truthy. */
  function Keep(v: PyValue): (r: PyValue)
    ensures PyTruthy(r) <==> PyTruthy(v)
    ensures r.Some? ==> r == v
  {
    if PyTruthy(v) then v else None
  }

  /** One field read from the row when its column is present: the selected
      row's cell, or None for a `nan`/`nat` cell. */
  function ReadField(idx: seq<Row>, column: string, flag: bool): (r: Result<PyValue, Failure>)
    ensures r.Err? <==> flag && |idx| != 1
    ensures r.Ok? && r.value.Some? ==>
      flag && |idx| == 1 && r.value.value == CellAt(idx[0], column) && !IsBlank(r.value.value)
  {
    if !flag then Ok(None)
    else
      var c := Item(idx, column);
      if c.Err? then Err(c.error)
      else Ok(if IsBlank(c.value) then None else Some(c.value))
  }

  /** The description read as written: a sentinel is first nulled, and only
      then tested for the blank-override branch, which can therefore never
      produce its empty string. */
  function ReadDescription(idx: seq<Row>, flag: bool, blankOverride: bool): (r: Result<PyValue, Failure>)
    ensures r == ReadField(idx, "Description", flag)
  {
    var d := ReadField(idx, "Description", flag);
    assert !IsSentinel("None") by { assert Lower("None") == "none"; }
    if d.Ok? && IsSentinel(PyText(d.value)) && blankOverride then Ok(Some(Str(""))) else d
  }

  /** The values `xip_update` settles on: the truthy overrides when any is,
      otherwise the row's cells for the columns present. */
  function XipValues(idx: seq<Row>, flags: InputFlags, blankOverride: bool, o: Triple): Result<Triple, Failure>
  {
    if AnyTruthy(o) then Ok(Triple(Keep(o.title), Keep(o.description), Keep(o.security)))
    else if idx == [] then Ok(Triple(None, None, None))
    else
      var t := ReadField(idx, "Title", flags.title);
      if t.Err? then Err(t.error)
      else
        var d := ReadDescription(idx, flags.description, blankOverride);
        if d.Err? then Err(d.error)
        else
          var s := ReadField(idx, "Security", flags.security);
          if s.Err? then Err(s.error)
          else Ok(Triple(t.value, d.value, s.value))
  }

  /** `e.field = value` when the value is truthy and the run is not a dry run. */
  function Assign(current: string, v: PyValue, dummy: bool): (r: string)
    ensures PyTruthy(v) && !dummy ==> r == Text(v.value)
    ensures !(PyTruthy(v) && !dummy) ==> r == current
  {
    if PyTruthy(v) && !dummy then Text(v.value) else current
  }

  function Assigned(f: Fields, v: Triple, dummy: bool): Fields
  {
    Fields(Assign(f.title, v.title, dummy), Assign(f.description, v.description, dummy),
           Assign(f.security, v.security, dummy))
  }

  /** The `save` call: made whenever a value is truthy, dry run or not, with the
      entity's fields as they then stand. */
  function XipCalls(ref: string, f: Fields, v: Triple, dummy: bool): (r: seq<Call>)
    ensures |r| <= 1
    ensures r != [] <==> AnyTruthy(v)
    ensures r != [] ==> r[0].Save? && r[0].ref == ref
    ensures r != [] && dummy ==> r[0].fields == f
  {
    if AnyTruthy(v) then [Save(ref, Assigned(f, v, dummy))] else []
  }

  /** Truthy overrides win and the row is then not consulted at all. */
  lemma XipOverridesWin(idx: seq<Row>, other: seq<Row>, flags: InputFlags, blankOverride: bool, o: Triple)
    requires AnyTruthy(o)
    ensures XipValues(idx, flags, blankOverride, o) == XipValues(other, flags, false, o)
    ensures XipValues(idx, flags, blankOverride, o).Ok?
    ensures var v := XipValues(idx, flags, blankOverride, o).value;
      (PyTruthy(o.title) ==> v.title == o.title) && (!PyTruthy(o.title) ==> v.title == None) &&
      (PyTruthy(o.description) ==> v.description == o.description) &&
      (!PyTruthy(o.description) ==> v.description == None) &&
      (PyTruthy(o.security) ==> v.security == o.security) && (!PyTruthy(o.security) ==> v.security == None)
  {
  }

  /** Without a truthy override the selected row is read: a field is set only
      when its column is present and its cell is not `nan`/`nat`; blank-override
      makes no difference. */
  lemma XipReadsRow(idx: seq<Row>, flags: InputFlags, blankOverride: bool, o: Triple)
    requires !AnyTruthy(o) && |idx| == 1
    ensures XipValues(idx, flags, blankOverride, o) == XipValues(idx, flags, false, o)
    ensures XipValues(idx, flags, blankOverride, o).Ok?
    ensures var v := XipValues(idx, flags, blankOverride, o).value;
      var t := CellAt(idx[0], "Title");
      var d := CellAt(idx[0], "Description");
      var s := CellAt(idx[0], "Security");
      v.title == (if flags.title && !IsBlank(t) then Some(t) else None) &&
      v.description == (if flags.description && !IsBlank(d) then Some(d) else None) &&
      v.security == (if flags.security && !IsBlank(s) then Some(s) else None)
  {
  }

  /** Without an override or a selected row nothing is read and nothing saved;
      with several selected rows the first present column raises. */
  lemma XipWithoutOneRow(idx: seq<Row>, flags: InputFlags, blankOverride: bool, o: Triple)
    requires !AnyTruthy(o) && |idx| != 1
    ensures idx == [] ==> XipValues(idx, flags, blankOverride, o) == Ok(Triple(None, None, None))
    ensures idx != [] ==>
      (XipValues(idx, flags, blankOverride, o).Err? <==> flags.title || flags.description || flags.security)
  {
  }

  /** What `xip_update` leaves on the server: one `save` exactly when a value
      is truthy, carrying each truthy value (or, in a dry run, the unchanged
      fields); nothing else about the entity, and no other entity, changes. */
  lemma XipEffect(s: State, ref: string, v: Triple, dummy: bool)
    requires ref in s.records
    ensures var f := s.records[ref].fields;
      var t := Exec(s, XipCalls(ref, f, v, dummy));
      ref in t.records &&
      t.log == s.log + (if AnyTruthy(v) then [Save(ref, Assigned(f, v, dummy))] else []) &&
      t.records[ref] == (if AnyTruthy(v) then s.records[ref].(fields := Assigned(f, v, dummy)) else s.records[ref]) &&
      (dummy ==> t.records[ref] == s.records[ref]) &&
      forall r :: r in s.records && r != ref ==> r in t.records && t.records[r] == s.records[r]
  {
    var f := s.records[ref].fields;
    var calls := XipCalls(ref, f, v, dummy);
    if calls != [] {
      assert calls[1..] == [];
    }
  }

  // ---------------------------------------------------------------------------
  // ident_update

  /** A column `ident_update` reads. */
  predicate IdentColumn(h: string)
  {
    Contains(h, "Identifier") || Contains(h, "Archive_Reference") || Contains(h, "Accession_Reference")
  }

  /** The identifier type a column writes. */
  function KeyName(h: string, keyOverride: Option<string>): string
  {
    if Contains(h, "Identifier:") then LastSegment(h, ':')
    else if keyOverride.Some? then keyOverride.value
    else if Contains(h, "Archive_Reference") then "code"
    else if Contains(h, "Accession_Reference") then "accref"
    else "code"
  }

  /** A column named `…Identifier:key` writes identifiers of type `key`,
      whatever the override. */
  lemma KeyNameQualified(prefix: string, key: string, keyOverride: Option<string>)
    requires ':' !in key
    ensures KeyName(prefix + "Identifier:" + key, keyOverride) == key
  {
    var h := prefix + "Identifier:" + key;
    assert MatchAt(h, |prefix|, "Identifier:") by {
      assert h[|prefix|..|prefix| + 11] == "Identifier:";
    }
    assert h == (prefix + "Identifier") + [':'] + key;
    LastSegmentAfter(prefix + "Identifier", key, ':');
  }

  /** A column without `Identifier:` writes the override when one is given;
      otherwise an `Archive_Reference` column writes `code`, an
      `Accession_Reference` column `accref` and any other column `code`, tested
      in that order. The three fixed column names are instances. */
  lemma KeyNameDefaults(h: string, keyOverride: Option<string>)
    requires !Contains(h, "Identifier:")
    ensures keyOverride.Some? ==> KeyName(h, keyOverride) == keyOverride.value
    ensures keyOverride.None? ==>
      (KeyName(h, keyOverride) ==
         if Contains(h, "Archive_Reference") then "code"
         else if Contains(h, "Accession_Reference") then "accref"
         else "code")
    ensures keyOverride.None? ==> KeyName(h, keyOverride) in {"code", "accref"}
    ensures keyOverride.Some? ==> KeyName("Archive_Reference", keyOverride) == keyOverride.value
    ensures KeyName("Archive_Reference", None) == "code"
    ensures KeyName("Accession_Reference", None) == "accref"
    ensures KeyName("Identifier", None) == "code"
  {
    assert KeyName("Archive_Reference", keyOverride) ==
        (if keyOverride.Some? then keyOverride.value else "code") by {
      MissingChar("Archive_Reference", "Identifier:", ':');
      assert MatchAt("Archive_Reference", 0, "Archive_Reference");
    }
    assert KeyName("Archive_Reference", None) == "code" by {
      MissingChar("Archive_Reference", "Identifier:", ':');
      assert MatchAt("Archive_Reference", 0, "Archive_Reference");
    }
    assert KeyName("Accession_Reference", None) == "accref" by {
      MissingChar("Accession_Reference", "Identifier:", ':');
      MissingChar("Accession_Reference", "Archive_Reference", 'h');
      assert MatchAt("Accession_Reference", 0, "Accession_Reference");
    }
    assert KeyName("Identifier", None) == "code" by {
      MissingChar("Identifier", "Identifier:", ':');
    }
  }

  /** What a cell asks of the identifier: nothing, the blank-override
      deletion, or a new value. */
  datatype IdentAction = Skip | Delete | Put(value: string)

  function Action(c: Cell, blankOverride: bool): (a: IdentAction)
    ensures a.Delete? <==> blankOverride && IsBlank(c)
    ensures a.Put? <==> !IsBlank(c) && Truthy(c)
    ensures a.Put? ==> a.value == Text(c)
  {
    if blankOverride && IsBlank(c) then Delete
    else if IsBlank(c) || !Truthy(c) then Skip
    else Put(Text(c))
  }

  /** `any(x[0] for x in xip_idents if x[0] == key_name)`: an identifier of
      type `key` exists and `key` is not empty (an empty key is falsy). */
  predicate HasKey(ids: seq<(string, string)>, key: string)
  {
    key != "" && exists i :: 0 <= i < |ids| && ids[i].0 == key
  }

  /** The calls for one identifier column, given the entity's identifiers. */
  function IdentCalls(ref: string, key: string, a: IdentAction, dummy: bool, ids: seq<(string, string)>): seq<Call>
  {
    match a
    case Skip => []
    case Delete => if HasKey(ids, key) && !dummy then [UpdateIdentifiers(ref, key, "False")] else []
    case Put(v) =>
      if dummy then []
      else if HasKey(ids, key) then [UpdateIdentifiers(ref, key, v)]
      else [AddIdentifier(ref, key, v)]
  }

  /** The calls a loop made and the failure that ended it, if any. */
  datatype Run = Run(calls: seq<Call>, failure: Option<Failure>)

  /** The loop over the columns from `k` on; each column re-reads the entity's
      identifiers, as changed by the columns before it. */
  function IdentFrom(s: State, ref: string, headers: seq<string>, k: nat, idx: seq<Row>,
                     keyOverride: Option<string>, blankOverride: bool, dummy: bool): Run
    requires ref in s.records && k <= |headers|
    decreases |headers| - k
  {
    if k == |headers| then Run([], None)
    else if !IdentColumn(headers[k]) then IdentFrom(s, ref, headers, k + 1, idx, keyOverride, blankOverride, dummy)
    else
      var c := Item(idx, headers[k]);
      if c.Err? then Run([], Some(c.error))
      else
        var calls := IdentCalls(ref, KeyName(headers[k], keyOverride), Action(c.value, blankOverride), dummy,
                                s.records[ref].identifiers);
        var rest := IdentFrom(Exec(s, calls), ref, headers, k + 1, idx, keyOverride, blankOverride, dummy);
        Run(calls + rest.calls, rest.failure)
  }

  /** `ident_update`: nothing at all when no row is selected. */
  function IdentPlan(s: State, ref: string, headers: seq<string>, idx: seq<Row>,
                     keyOverride: Option<string>, blankOverride: bool, dummy: bool): Run
    requires ref in s.records
  {
    if idx == [] then Run([], None) else IdentFrom(s, ref, headers, 0, idx, keyOverride, blankOverride, dummy)
  }

  /** `t` is `ids` with identifier type `key` holding `v`: some identifier of
      that type holds it, every one does, and the identifiers of other types
      are those there were. */
  predicate Written(t: seq<(string, string)>, ids: seq<(string, string)>, key: string, v: string)
  {
    (exists i :: 0 <= i < |t| && t[i] == (key, v)) &&
    (forall i :: 0 <= i < |t| && t[i].0 == key ==> t[i].1 == v) &&
    (forall p :: p in ids && p.0 != key ==> p in t) &&
    (forall p :: p in t && p.0 != key ==> p in ids)
  }

  /** A present value writes its identifier type, whether it updates an
      existing type or adds a new identifier. The empty type (a column ending
      in `Identifier:`) never counts as existing, so each run adds
      `("", v)` once more beside the ones already there. Only the
      identifiers change. */
  lemma IdentPutLands(s: State, ref: string, key: string, v: string)
    requires ref in s.records
    ensures var ids := s.records[ref].identifiers;
      var t := Exec(s, IdentCalls(ref, key, Put(v), false, ids)).records;
      ref in t && t[ref] == s.records[ref].(identifiers := t[ref].identifiers) &&
      (key != "" ==> Written(t[ref].identifiers, ids, key, v)) &&
      (key == "" ==> IdentCalls(ref, key, Put(v), false, ids) == [AddIdentifier(ref, "", v)] &&
                     t[ref].identifiers == ids + [("", v)])
  {
    var ids := s.records[ref].identifiers;
    var calls := IdentCalls(ref, key, Put(v), false, ids);
    assert calls[1..] == [];
    var r1 := Perform(s.records[ref], calls[0]);
    assert Exec(s, calls) == Exec(State(s.records[ref := r1], s.log + calls), []);
    if HasKey(ids, key) {
      UpdateWrites(ids, key, v);
    } else if key != "" {
      AddWrites(ids, key, v);
    }
  }

  lemma UpdateWrites(ids: seq<(string, string)>, key: string, v: string)
    requires HasKey(ids, key)
    ensures Written(SetIdentifier(ids, key, v), ids, key, v)
  {
    var t := SetIdentifier(ids, key, v);
    assert exists i :: 0 <= i < |t| && t[i] == (key, v) by {
      var w :| 0 <= w < |ids| && ids[w].0 == key;
      assert t[w] == (key, v);
    }
    assert forall p :: p in ids && p.0 != key ==> p in t by {
      forall p | p in ids && p.0 != key ensures p in t {
        var j :| 0 <= j < |ids| && ids[j] == p;
        assert t[j] == p;
      }
    }
    assert forall p :: p in t && p.0 != key ==> p in ids by {
      forall p | p in t && p.0 != key ensures p in ids {
        var j :| 0 <= j < |t| && t[j] == p;
        assert ids[j] == p;
      }
    }
  }

  lemma AddWrites(ids: seq<(string, string)>, key: string, v: string)
    requires !HasKey(ids, key) && key != ""
    ensures Written(ids + [(key, v)], ids, key, v)
  {
    var t := ids + [(key, v)];
    assert t[|ids|] == (key, v);
  }

  /** A blank cell under blank-override acts only on an existing identifier
      type, and then writes the string `False` into it. */
  lemma IdentDeleteMarks(s: State, ref: string, key: string, dummy: bool)
    requires ref in s.records
    ensures var ids := s.records[ref].identifiers;
      var calls := IdentCalls(ref, key, Delete, dummy, ids);
      var t := Exec(s, calls).records[ref].identifiers;
      (calls != [] <==> HasKey(ids, key) && !dummy) &&
      (calls == [] ==> t == ids) &&
      (calls != [] ==> |t| == |ids| && forall i :: 0 <= i < |t| && t[i].0 == key ==> t[i].1 == "False")
  {
    var ids := s.records[ref].identifiers;
    var calls := IdentCalls(ref, key, Delete, dummy, ids);
    if calls != [] {
      assert calls[1..] == [];
    }
  }

  /** Every call `ident_update` makes is an identifier call on the entity. */
  lemma {:induction false} IdentFromCalls(s: State, ref: string, headers: seq<string>, k: nat, idx: seq<Row>,
                                          keyOverride: Option<string>, blankOverride: bool, dummy: bool)
    requires ref in s.records && k <= |headers|
    ensures var r := IdentFrom(s, ref, headers, k, idx, keyOverride, blankOverride, dummy);
      forall j :: 0 <= j < |r.calls| ==>
        r.calls[j].ref == ref && (r.calls[j].UpdateIdentifiers? || r.calls[j].AddIdentifier?)
    ensures dummy ==> IdentFrom(s, ref, headers, k, idx, keyOverride, blankOverride, dummy).calls == []
    ensures |idx| != 1 ==> IdentFrom(s, ref, headers, k, idx, keyOverride, blankOverride, dummy).calls == []
    ensures |idx| == 1 ==> IdentFrom(s, ref, headers, k, idx, keyOverride, blankOverride, dummy).failure == None
    decreases |headers| - k
  {
    if k < |headers| {
      if !IdentColumn(headers[k]) {
        IdentFromCalls(s, ref, headers, k + 1, idx, keyOverride, blankOverride, dummy);
      } else if |idx| == 1 {
        var c := Item(idx, headers[k]);
        var calls := IdentCalls(ref, KeyName(headers[k], keyOverride), Action(c.value, blankOverride), dummy,
                                s.records[ref].identifiers);
        IdentFromCalls(Exec(s, calls), ref, headers, k + 1, idx, keyOverride, blankOverride, dummy);
      }
    }
  }

  /** `ident_update` makes only identifier calls on the entity, none in a dry
      run and none unless exactly one row is selected; with one row it never
      fails, with several it fails exactly when some column is an identifier
      column. */
  lemma IdentPlanCalls(s: State, ref: string, headers: seq<string>, idx: seq<Row>,
                       keyOverride: Option<string>, blankOverride: bool, dummy: bool)
    requires ref in s.records
    ensures var r := IdentPlan(s, ref, headers, idx, keyOverride, blankOverride, dummy);
      (forall j :: 0 <= j < |r.calls| ==>
        r.calls[j].ref == ref && (r.calls[j].UpdateIdentifiers? || r.calls[j].AddIdentifier?)) &&
      (dummy ==> r.calls == []) &&
      (|idx| != 1 ==> r.calls == []) &&
      (|idx| == 1 ==> r.failure == None)
    ensures |idx| > 1 ==>
      (IdentPlan(s, ref, headers, idx, keyOverride, blankOverride, dummy).failure.Some? <==>
       exists k :: 0 <= k < |headers| && IdentColumn(headers[k]))
  {
    if idx != [] {
      IdentFromCalls(s, ref, headers, 0, idx, keyOverride, blankOverride, dummy);
      if |idx| > 1 {
        IdentFromFails(s, ref, headers, 0, idx, keyOverride, blankOverride, dummy);
      }
    }
  }

  lemma {:induction false} IdentFromFails(s: State, ref: string, headers: seq<string>, k: nat, idx: seq<Row>,
                                          keyOverride: Option<string>, blankOverride: bool, dummy: bool)
    requires ref in s.records && k <= |headers| && |idx| > 1
    ensures IdentFrom(s, ref, headers, k, idx, keyOverride, blankOverride, dummy).failure.Some? <==>
      exists j :: k <= j < |headers| && IdentColumn(headers[j])
    decreases |headers| - k
  {
    if k < |headers| && !IdentColumn(headers[k]) {
      IdentFromFails(s, ref, headers, k + 1, idx, keyOverride, blankOverride, dummy);
      if exists j :: k <= j < |headers| && IdentColumn(headers[j]) {
        var j :| k <= j < |headers| && IdentColumn(headers[j]);
        assert j != k;
      }
    }
  }

  // ---------------------------------------------------------------------------
  // retention_update

  /** `[d for d in self.policy_dict if d.get('Name') == rp]`: only a string
      cell equals a policy name. */
  function Matching(policies: seq<RetentionPolicy>, c: Cell): (r: seq<RetentionPolicy>)
    ensures forall p :: p in r <==> p in policies && c == Str(p.name)
    ensures |r| <= |policies|
  {
    if policies == [] then []
    else (if c == Str(policies[0].name) then [policies[0]] else []) + Matching(policies[1..], c)
  }

  /** One `remove_assignments` per current assignment, in order. */
  function Removals(ref: string, current: seq<RetentionPolicy>): (r: seq<Call>)
    ensures |r| == |current|
    ensures forall k :: 0 <= k < |r| ==> r[k] == RemoveAssignment(ref, current[k])
  {
    seq(|current|, k requires 0 <= k < |current| => RemoveAssignment(ref, current[k]))
  }

  /** `retention_update` for an entity whose assignments are `current`. */
  function RetentionPlan(ref: string, idx: seq<Row>, flag: bool, blankOverride: bool, dummy: bool,
                         current: seq<RetentionPolicy>, policies: seq<RetentionPolicy>): Result<seq<Call>, Failure>
  {
    if idx == [] || !flag then Ok([])
    else
      var rp := Item(idx, "Retention Policy");
      if rp.Err? then Err(rp.error)
      else if IsBlank(rp.value) && blankOverride then Ok(if dummy then [] else Removals(ref, current))
      else if IsBlank(rp.value) then Ok([])
      else
        var d := Matching(policies, rp.value);
        if |d| != 1 then Ok([])
        else Ok(if dummy then [] else Removals(ref, current) + [AddAssignment(ref, d[0])])
  }

  /** Removing assignments drops exactly those from the entity and changes
      nothing else. */
  lemma {:induction false} ExecRemovals(s: State, ref: string, ys: seq<RetentionPolicy>)
    requires ref in s.records
    ensures var t := Exec(s, Removals(ref, ys));
      ref in t.records &&
      t.records[ref] == s.records[ref].(assignments := t.records[ref].assignments) &&
      (forall q :: q in t.records[ref].assignments <==> q in s.records[ref].assignments && q !in ys) &&
      forall r :: r in s.records && r != ref ==> r in t.records && t.records[r] == s.records[r]
    decreases |ys|
  {
    if ys != [] {
      var c := RemoveAssignment(ref, ys[0]);
      var s1 := State(s.records[ref := Perform(s.records[ref], c)], s.log + [c]);
      assert Removals(ref, ys)[0] == c && Removals(ref, ys)[1..] == Removals(ref, ys[1..]);
      assert Exec(s, Removals(ref, ys)) == Exec(s1, Removals(ref, ys[1..]));
      ExecRemovals(s1, ref, ys[1..]);
    }
  }

  /** A name that matches one policy replaces every assignment by that one. */
  lemma RetentionReplaces(s: State, ref: string, idx: seq<Row>, blankOverride: bool, policies: seq<RetentionPolicy>)
    requires ref in s.records && |idx| == 1
    requires !IsBlank(CellAt(idx[0], "Retention Policy"))
    requires |Matching(policies, CellAt(idx[0], "Retention Policy"))| == 1
    ensures var c := CellAt(idx[0], "Retention Policy");
      var p := RetentionPlan(ref, idx, true, blankOverride, false, s.records[ref].assignments, policies);
      p.Ok? && ref in Exec(s, p.value).records &&
      Exec(s, p.value).records[ref].assignments == Matching(policies, c) &&
      c == Str(Matching(policies, c)[0].name) && Matching(policies, c)[0] in policies
  {
    var c := CellAt(idx[0], "Retention Policy");
    var cur := s.records[ref].assignments;
    var d := Matching(policies, c);
    assert d[0] in d;
    var calls := Removals(ref, cur) + [AddAssignment(ref, d[0])];
    ExecAppend(s, Removals(ref, cur), [AddAssignment(ref, d[0])]);
    ExecRemovals(s, ref, cur);
    var t := Exec(s, Removals(ref, cur));
    EmptyOrHead(t.records[ref].assignments);
    assert Exec(t, [AddAssignment(ref, d[0])]).records[ref].assignments == [d[0]];
    assert [d[0]] == d;
  }

  /** A blank cell under blank-override removes every assignment. */
  lemma RetentionClears(s: State, ref: string, idx: seq<Row>, policies: seq<RetentionPolicy>)
    requires ref in s.records && |idx| == 1 && IsBlank(CellAt(idx[0], "Retention Policy"))
    ensures var p := RetentionPlan(ref, idx, true, true, false, s.records[ref].assignments, policies);
      p.Ok? && ref in Exec(s, p.value).records && Exec(s, p.value).records[ref].assignments == []
  {
    ExecRemovals(s, ref, s.records[ref].assignments);
    EmptyOrHead(Exec(s, Removals(ref, s.records[ref].assignments)).records[ref].assignments);
  }

  /** When `retention_update` changes nothing, and when it fails. */
  lemma RetentionNoChange(ref: string, idx: seq<Row>, flag: bool, blankOverride: bool, dummy: bool,
                          current: seq<RetentionPolicy>, policies: seq<RetentionPolicy>)
    ensures var p := RetentionPlan(ref, idx, flag, blankOverride, dummy, current, policies);
      (p.Err? <==> flag && idx != [] && |idx| != 1) &&
      (p.Ok? ==> forall j :: 0 <= j < |p.value| ==> p.value[j].ref == ref) &&
      (p.Ok? && |idx| == 1 ==>
        var c := CellAt(idx[0], "Retention Policy");
        (p.value == [] <==>
          dummy || !flag || (IsBlank(c) && (!blankOverride || current == [])) ||
          (!IsBlank(c) && |Matching(policies, c)| != 1)))
  {
  }

  // ---------------------------------------------------------------------------
  // xml_update

  /** `xml_update` with the fragment generated for the current template and
      the entity's metadata `existing` in that template's namespace: added when
      absent, otherwise merged into the existing document and uploaded. */
  function MetadataPlan(ref: string, ns: Option<string>, existing: Option<Node>, fragment: Option<Node>,
                        p: Policy, dummy: bool): (r: Result<seq<Call>, Failure>)
    ensures r.Err? <==> fragment.None?
    ensures r.Ok? ==> |r.value| <= 1 && forall k :: 0 <= k < |r.value| ==> r.value[k].ref == ref
  {
    if fragment.None? then Err(NoFragment)
    else if existing.None? then Ok(if dummy then [] else [AddMetadata(ref, ns, fragment.value)])
    else Ok(if dummy then [] else [UpdateMetadata(ref, ns, Merge(existing.value, fragment.value, p))])
  }

  /** `entity.metadata_for_entity(e, ns)`. */
  function Existing(r: Record, ns: Option<string>): Option<Node>
  {
    if ns in r.metadata then Some(r.metadata[ns]) else None
  }

  /** After the upload the entity holds, in the template's namespace, the
      fragment itself or the merge of the fragment into what it held before:
      every existing element is kept in place and every top-level tag of the
      fragment is present. */
  lemma MetadataUploads(s: State, ref: string, ns: Option<string>, fragment: Node, p: Policy)
    requires ref in s.records
    ensures var e := Existing(s.records[ref], ns);
      var plan := MetadataPlan(ref, ns, e, Some(fragment), p, false);
      plan.Ok? && |plan.value| == 1 &&
      var t := Exec(s, plan.value).records;
      ref in t && ns in t[ref].metadata &&
      (e.None? ==> t[ref].metadata[ns] == fragment) &&
      (e.Some? ==> t[ref].metadata[ns] == Merge(e.value, fragment, p) &&
                   Embeds(e.value, t[ref].metadata[ns]) &&
                   TagSet(t[ref].metadata[ns].children) == TagSet(e.value.children) + TagSet(fragment.children)) &&
      t[ref] == s.records[ref].(metadata := t[ref].metadata)
  {
    var e := Existing(s.records[ref], ns);
    var plan := MetadataPlan(ref, ns, e, Some(fragment), p, false);
    assert plan.value[1..] == [];
    if e.Some? {
      MergeEmbeds(e.value, fragment, p);
      MergeTags(e.value, fragment, p);
    }
  }

  /** A dry run uploads nothing. */
  lemma MetadataDryRun(ref: string, ns: Option<string>, existing: Option<Node>, fragment: Option<Node>, p: Policy)
    ensures MetadataPlan(ref, ns, existing, fragment, p, true) == (if fragment.None? then Err(NoFragment) else Ok([]))
  {
  }

  /** `xml_add` as `xml_update` calls it after the merge, with no parent for
      new children: it raises on the first source child when the existing
      document has no child with that tag. */
  predicate AddRaises(existing: Node, fragment: Node)
  {
    |fragment.children| > 0 && FindTag(existing.children, fragment.children[0].tag) == |existing.children|
  }

  /** `xml_update` as written, with the `xml_add` call that follows the merge:
      its failure aborts the update, dry run or not. */
  function MetadataPlanAsWritten(ref: string, ns: Option<string>, existing: Option<Node>, fragment: Option<Node>,
                                 p: Policy, dummy: bool): (r: Result<seq<Call>, Failure>)
    ensures existing.Some? && fragment.Some? && AddRaises(existing.value, fragment.value) ==> r.Err?
  {
    if fragment.None? then Err(NoFragment)
    else if existing.None? then Ok(if dummy then [] else [AddMetadata(ref, ns, fragment.value)])
    else if AddRaises(existing.value, fragment.value) then
      Err(AddWithoutParent(Clark(fragment.value.children[0].tag)))
    else Ok(if dummy then [] else [UpdateMetadata(ref, ns, Merge(existing.value, fragment.value, p))])
  }

  /** The two agree except where `xml_add` raises. */
  lemma AsWrittenAgrees(ref: string, ns: Option<string>, existing: Option<Node>, fragment: Option<Node>,
                        p: Policy, dummy: bool)
    requires !(existing.Some? && fragment.Some? && AddRaises(existing.value, fragment.value))
    ensures MetadataPlanAsWritten(ref, ns, existing, fragment, p, dummy) == MetadataPlan(ref, ns, existing, fragment, p, dummy)
  {
  }

  /** An existing `<dc>` document without a `title`, and a fragment that fills
      one in: the merge appends the title, but the update as written aborts. */
  lemma NewTopLevelFieldAborts(ref: string, ns: Option<string>, p: Policy)
    ensures var dc := QName(Some("dc"), "dc");
      var title := QName(Some("dc"), "title");
      var existing := Node(dc, None, []);
      var fragment := Node(dc, None, [Node(title, Some("Minutes"), [])]);
      MetadataPlanAsWritten(ref, ns, Some(existing), Some(fragment), p, false) ==
        Err(AddWithoutParent("{dc}title")) &&
      MetadataPlan(ref, ns, Some(existing), Some(fragment), p, false) ==
        Ok([UpdateMetadata(ref, ns, Node(dc, None, [Node(title, Some("Minutes"), [])]))])
  {
    var dc := QName(Some("dc"), "dc");
    var title := QName(Some("dc"), "title");
    var existing := Node(dc, None, []);
    var child := Node(title, Some("Minutes"), []);
    var fragment := Node(dc, None, [child]);
    assert Created(child, p) == child;
    assert MergeOne([], child, p) == [child];
    assert MergeKids([child], fragment, 1, p) == [child];
    assert MergeKids([], fragment, 0, p) == [child];
    assert Merge(existing, fragment, p) == Node(dc, None, [child]);
    assert AddRaises(existing, fragment);
    assert Clark(title) == "{dc}title";
  }
}
