/** The remote repository as the engine sees it through its API clients: one
    record per entity reference, and a log of the mutating calls made. The API
    itself is not modelled; each call's effect on a record is its abstract
    meaning. */
module Remote {
  import opened Base
  import opened Xml

  /** `EntityType.ASSET` or `EntityType.FOLDER`. */
  datatype Kind = Asset | Folder

  /** One `policy_dict` item. */
  datatype RetentionPolicy = RetentionPolicy(name: string, reference: string)

  /** An entity's local copy of its title, description and security tag. */
  datatype Fields = Fields(title: string, description: string, security: string)

  /** What the server holds for one entity. */
  datatype Record = Record(kind: Kind, fields: Fields, identifiers: seq<(string, string)>,
                           assignments: seq<RetentionPolicy>, metadata: map<Option<string>, Node>)

  /** The mutating calls the engine makes. */
  datatype Call =
    | Save(ref: string, fields: Fields)                             // entity.save(e)
    | UpdateIdentifiers(ref: string, key: string, value: string)    // entity.update_identifiers
    | AddIdentifier(ref: string, key: string, value: string)        // entity.add_identifier
    | RemoveAssignment(ref: string, policy: RetentionPolicy)        // retention.remove_assignments
    | AddAssignment(ref: string, policy: RetentionPolicy)           // retention.add_assignments
    | AddMetadata(ref: string, ns: Option<string>, xml: Node)       // entity.add_metadata
    | UpdateMetadata(ref: string, ns: Option<string>, xml: Node)    // entity.update_metadata

  /** Every identifier of type `key` takes the value `value`. */
  function SetIdentifier(ids: seq<(string, string)>, key: string, value: string): (r: seq<(string, string)>)
    ensures |r| == |ids|
    ensures forall i :: 0 <= i < |r| ==> r[i].0 == ids[i].0
    ensures forall i :: 0 <= i < |r| ==> r[i].1 == (if ids[i].0 == key then value else ids[i].1)
  {
    if ids == [] then []
    else [(ids[0].0, if ids[0].0 == key then value else ids[0].1)] + SetIdentifier(ids[1..], key, value)
  }

  /** The assignments other than `p`. */
  function Without(ps: seq<RetentionPolicy>, p: RetentionPolicy): (r: seq<RetentionPolicy>)
    ensures forall q :: q in r <==> q in ps && q != p
    ensures |r| <= |ps|
  {
    if ps == [] then []
    else (if ps[0] == p then [] else [ps[0]]) + Without(ps[1..], p)
  }

  /** The effect of one call on the record it names. */
  function Perform(r: Record, c: Call): Record
  {
    match c
    case Save(_, f) => r.(fields := f)
    case UpdateIdentifiers(_, k, v) => r.(identifiers := SetIdentifier(r.identifiers, k, v))
    case AddIdentifier(_, k, v) => r.(identifiers := r.identifiers + [(k, v)])
    case RemoveAssignment(_, p) => r.(assignments := Without(r.assignments, p))
    case AddAssignment(_, p) => r.(assignments := r.assignments + [p])
    case AddMetadata(_, ns, x) => r.(metadata := r.metadata[ns := x])
    case UpdateMetadata(_, ns, x) => r.(metadata := r.metadata[ns := x])
  }

  /** The server's records and the calls made so far. */
  datatype State = State(records: map<string, Record>, log: seq<Call>)

  /** The calls made one after the other; a call naming an unknown entity
      changes no record. */
  function Exec(s: State, calls: seq<Call>): (r: State)
    ensures r.log == s.log + calls
    ensures r.records.Keys == s.records.Keys
    decreases |calls|
  {
    if calls == [] then s
    else
      var c := calls[0];
      var recs := if c.ref in s.records then s.records[c.ref := Perform(s.records[c.ref], c)] else s.records;
      Exec(State(recs, s.log + [c]), calls[1..])
  }

  /** Making two batches of calls is making their concatenation. */
  lemma {:induction false} ExecAppend(s: State, xs: seq<Call>, ys: seq<Call>)
    ensures Exec(Exec(s, xs), ys) == Exec(s, xs + ys)
    decreases |xs|
  {
    if xs != [] {
      var c := xs[0];
      var recs := if c.ref in s.records then s.records[c.ref := Perform(s.records[c.ref], c)] else s.records;
      ExecAppend(State(recs, s.log + [c]), xs[1..], ys);
      assert (xs + ys)[0] == c && (xs + ys)[1..] == xs[1..] + ys;
    } else {
      assert xs + ys == ys;
    }
  }

  /** `t` differs from `s` at most in the record of `ref`. */
  predicate OnlyTouches(s: State, t: State, ref: string)
  {
    t.records.Keys == s.records.Keys && forall o :: o in s.records && o != ref ==> t.records[o] == s.records[o]
  }

  /** Calls that name only `ref` leave every other record as it was. */
  lemma {:induction false} ExecOthers(s: State, calls: seq<Call>, ref: string)
    requires forall k :: 0 <= k < |calls| ==> calls[k].ref == ref
    ensures OnlyTouches(s, Exec(s, calls), ref)
    decreases |calls|
  {
    if calls != [] {
      var c := calls[0];
      var recs := if c.ref in s.records then s.records[c.ref := Perform(s.records[c.ref], c)] else s.records;
      ExecOthers(State(recs, s.log + [c]), calls[1..], ref);
    }
  }

  /** One call. */
  lemma ExecOne(s: State, c: Call)
    ensures Exec(s, [c]) ==
      State(if c.ref in s.records then s.records[c.ref := Perform(s.records[c.ref], c)] else s.records, s.log + [c])
  {
    assert [c][1..] == [];
  }

  /** The server side: the records and the log, changed only by `Perform`. */
  class Catalog {
    var records: map<string, Record>
    var log: seq<Call>

    constructor (records: map<string, Record>)
      ensures this.records == records && log == []
    {
      this.records := records;
      log := [];
    }

    function Snapshot(): State
      reads this
    {
      State(records, log)
    }

    /** One API call. */
    method Make(c: Call)
      modifies this
      ensures Snapshot() == Exec(old(Snapshot()), [c])
    {
      if c.ref in records {
        records := records[c.ref := Perform(records[c.ref], c)];
      }
      log := log + [c];
    }
  }
}
