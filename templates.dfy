/** The template handlers: one method per route, acting on a store that holds the template
    table, the version table and the source of fresh ids. The authenticated user arrives as
    the `owner` parameter; every per-template handler starts with the lookup scoped to id AND
    owner, so an absent id and another user's id end in the same TemplateNotFound. */
module Templates {
  import opened Records
  import opened Queries
  import opened Consistency

  class TemplateStore<D> {
    var templates: seq<Template>
    var versions: seq<Version<D>>
    /** Stands in for UUID generation: every id handed out is fresh. */
    var nextId: nat

    ghost predicate Valid()
      reads this
    {
      Consistent(templates, versions, nextId)
    }

    constructor ()
      ensures Valid() && templates == [] && versions == []
    {
      templates := [];
      versions := [];
      nextId := 0;
    }

    /** create_template: a new template owned by the caller and its version 1. */
    method CreateTemplate(owner: UserId, name: string, subTypes: seq<string>, data: D)
      returns (id: Id, version: int)
      requires Valid()
      modifies this
      ensures Valid()
      ensures version == 1
      ensures forall j :: 0 <= j < |old(templates)| ==> old(templates)[j].id != id
      ensures templates == old(templates) + [Template(id, owner, name, Some(subTypes))]
      ensures forall i :: 0 <= i < |old(versions)| ==> old(versions)[i].id != old(nextId) + 1
      ensures versions == old(versions) + [Version(old(nextId) + 1, id, 1, data)]
      ensures nextId == old(nextId) + 2
    {
      id := nextId;
      CreateKeepsConsistent(templates, versions, nextId, owner, name, subTypes, data);
      templates := templates + [Template(id, owner, name, Some(subTypes))];
      versions := versions + [Version(nextId + 1, id, 1, data)];
      nextId := nextId + 2;
      version := 1;
    }

    /** get_templates: every template of the caller, in table order, each with a summary
        of its highest-numbered version. The handler builds a response for each template in
        turn, and the first one whose tags are null or that has no version fails validation. */
    method GetTemplates(owner: UserId) returns (r: Result<seq<Listing>>)
      ensures r.Err? <==> exists j :: 0 <= j < |templates| && templates[j].owner == owner
                                      && !Presentable(templates[j], versions)
      ensures r.Err? ==> r.error == ValidationError
      ensures r.Ok? ==> |r.value| == |OwnedTemplates(templates, owner)|
      ensures r.Ok? ==> forall i :: 0 <= i < |r.value| ==> r.value[i].template == OwnedTemplates(templates, owner)[i]
      ensures r.Ok? ==> forall i :: 0 <= i < |r.value| ==>
                Latest(versions, r.value[i].template.id).Some?
                && r.value[i].latest == Summary(Latest(versions, r.value[i].template.id).value)
      ensures r.Ok? ==> forall i :: 0 <= i < |r.value| ==>
                r.value[i].template in templates && r.value[i].template.owner == owner
                && r.value[i].template.subTypes.Some?
      ensures r.Ok? ==> forall j :: 0 <= j < |templates| && templates[j].owner == owner ==>
                exists i :: 0 <= i < |r.value| && r.value[i].template == templates[j]
    {
      var owned := OwnedTemplates(templates, owner);
      var listed := [];
      for i := 0 to |owned|
        invariant |listed| == i
        invariant forall j :: 0 <= j < i ==> Presentable(owned[j], versions)
        invariant forall j :: 0 <= j < i ==> listed[j] == Listing(owned[j], Summary(Latest(versions, owned[j].id).value))
      {
        var latest := Latest(versions, owned[i].id);
        if latest.None? || owned[i].subTypes.None? {
          assert owned[i] in templates && !Presentable(owned[i], versions);
          return Err(ValidationError);
        }
        listed := listed + [Listing(owned[i], Summary(latest.value))];
      }
      forall j | 0 <= j < |templates| && templates[j].owner == owner
        ensures Presentable(templates[j], versions)
        ensures exists i :: 0 <= i < |listed| && listed[i].template == templates[j]
      {
        assert templates[j] in owned;
        var i :| 0 <= i < |owned| && owned[i] == templates[j];
        assert listed[i].template == templates[j];
      }
      r := Ok(listed);
    }

    /** get_template: the caller's template with its highest-numbered version in full. The
        handler reads that version without checking it exists, so a template without versions
        ends in an InternalError; the response schema then refuses null tags. */
    method GetTemplate(tid: Id, owner: UserId) returns (r: Result<Detail<D>>)
      ensures r == Err(TemplateNotFound) <==> FindOwned(templates, tid, owner).None?
      ensures r == Err(InternalError) <==>
                FindOwned(templates, tid, owner).Some? && Latest(versions, tid).None?
      ensures r == Err(ValidationError) <==>
                FindOwned(templates, tid, owner).Some? && Latest(versions, tid).Some?
                && templates[FindOwned(templates, tid, owner).value].subTypes.None?
      ensures r.Ok? <==> FindOwned(templates, tid, owner).Some?
                         && Presentable(templates[FindOwned(templates, tid, owner).value], versions)
      ensures r.Ok? ==> (r.value.template in templates && r.value.template.id == tid
                      && r.value.template.owner == owner && r.value.template.subTypes.Some?
                      && Latest(versions, tid) == Some(r.value.latest))
    {
      var found := FindOwned(templates, tid, owner);
      if found.None? {
        return Err(TemplateNotFound);
      }
      var latest := Latest(versions, tid);
      if latest.None? {
        return Err(InternalError);
      }
      if templates[found.value].subTypes.None? {
        return Err(ValidationError);
      }
      r := Ok(Detail(templates[found.value], latest.value));
    }

    /** delete_template: every version row of the template, one by one, then the template. */
    method DeleteTemplate(tid: Id, owner: UserId) returns (r: Result<()>)
      requires Valid()
      modifies this
      ensures Valid()
      ensures nextId == old(nextId)
      ensures FindOwned(old(templates), tid, owner).None? ==>
                r == Err(TemplateNotFound) && templates == old(templates) && versions == old(versions)
      ensures FindOwned(old(templates), tid, owner).Some? ==>
                var k := FindOwned(old(templates), tid, owner).value;
                && r == Ok(())
                && templates == old(templates)[..k] + old(templates)[k + 1..]
                && versions == OthersOf(old(versions), tid)
    {
      var found := FindOwned(templates, tid, owner);
      if found.None? {
        return Err(TemplateNotFound);
      }
      var k := found.value;
      DeleteKeepsConsistent(templates, versions, nextId, k);
      var doomed := VersionsOf(versions, tid);
      ghost var before := versions;
      DropNone(before, doomed);
      for i := 0 to |doomed|
        invariant versions == Drop(before, IdsOf(doomed[..i]))
        invariant templates == old(templates) && nextId == old(nextId)
      {
        DropStep(before, doomed, i);
        versions := Drop(versions, {doomed[i].id});
      }
      CascadeDrop(before, tid);
      assert doomed[..|doomed|] == doomed;
      templates := templates[..k] + templates[k + 1..];
      r := Ok(());
    }

    /** add_version: a new version numbered one past the template's highest (1 when it has
        none), appended after every existing row; a number past the 32-bit version column is
        refused at commit. */
    method AddVersion(tid: Id, owner: UserId, data: D) returns (r: Result<int>)
      requires Valid()
      modifies this
      ensures Valid()
      ensures templates == old(templates)
      ensures FindOwned(old(templates), tid, owner).None? ==>
                r == Err(TemplateNotFound) && versions == old(versions) && nextId == old(nextId)
      ensures FindOwned(old(templates), tid, owner).Some? && NextNumber(old(versions), tid) > MaxVersion ==>
                r == Err(OutOfRange) && versions == old(versions) && nextId == old(nextId)
      ensures FindOwned(old(templates), tid, owner).Some? && NextNumber(old(versions), tid) <= MaxVersion ==>
                && r == Ok(NextNumber(old(versions), tid))
                && r.value == |VersionsOf(old(versions), tid)| + 1
                && versions == old(versions) + [Version(old(nextId), tid, r.value, data)]
                && nextId == old(nextId) + 1
    {
      var found := FindOwned(templates, tid, owner);
      if found.None? {
        return Err(TemplateNotFound);
      }
      var latest := Latest(versions, tid);
      var n := if latest.Some? then latest.value.number + 1 else 1;
      if n > MaxVersion {
        return Err(OutOfRange);
      }
      AppendKeepsConsistent(templates, versions, nextId, found.value, data);
      versions := versions + [Version(nextId, tid, n, data)];
      nextId := nextId + 1;
      r := Ok(n);
    }

    /** list_versions: the summaries of the template's versions, ascending by number. */
    method ListVersions(tid: Id, owner: UserId) returns (r: Result<seq<VersionSummary>>)
      ensures r.Err? <==> FindOwned(templates, tid, owner).None?
      ensures r.Err? ==> r.error == TemplateNotFound
      ensures r.Ok? ==> |r.value| == |VersionsOf(versions, tid)|
      ensures r.Ok? ==> forall i :: 0 <= i < |r.value| ==>
                r.value[i] == Summary(OrderByNumber(VersionsOf(versions, tid))[i])
      ensures r.Ok? ==> forall i, j :: 0 <= i < j < |r.value| ==> r.value[i].number <= r.value[j].number
    {
      var found := FindOwned(templates, tid, owner);
      if found.None? {
        return Err(TemplateNotFound);
      }
      var rows := OrderByNumber(VersionsOf(versions, tid));
      var summaries := [];
      for i := 0 to |rows|
        invariant |summaries| == i
        invariant forall j :: 0 <= j < i ==> summaries[j] == Summary(rows[j])
      {
        summaries := summaries + [Summary(rows[i])];
      }
      r := Ok(summaries);
    }

    /** get_versions: one version, looked up by its id AND the template's id. The handler
        reads the row without checking it exists, so a missing row ends in an InternalError. */
    method GetVersion(tid: Id, vid: Id, owner: UserId) returns (r: Result<Version<D>>)
      ensures r == Err(TemplateNotFound) <==> FindOwned(templates, tid, owner).None?
      ensures r == Err(InternalError) <==>
                FindOwned(templates, tid, owner).Some? && FindVersion(versions, tid, vid).None?
      ensures r.Ok? <==> FindOwned(templates, tid, owner).Some? && FindVersion(versions, tid, vid).Some?
      ensures r.Ok? ==> r.value in versions && r.value.templateId == tid && r.value.id == vid
    {
      var found := FindOwned(templates, tid, owner);
      if found.None? {
        return Err(TemplateNotFound);
      }
      var row := FindVersion(versions, tid, vid);
      if row.None? {
        return Err(InternalError);
      }
      r := Ok(row.value);
    }

    /** update_metadata: both fields of the update are written to the row, including one the
        request left at its None default. A None name violates NOT NULL at commit, which fails
        and leaves the row as it was; None tags are stored as JSON null. */
    method UpdateMetadata(tid: Id, owner: UserId, name: Option<string>, subTypes: Option<seq<string>>)
      returns (r: Result<Template>)
      requires Valid()
      modifies this
      ensures Valid()
      ensures versions == old(versions) && nextId == old(nextId)
      ensures FindOwned(old(templates), tid, owner).None? ==>
                r == Err(TemplateNotFound) && templates == old(templates)
      ensures FindOwned(old(templates), tid, owner).Some? && name.None? ==>
                r == Err(IntegrityError) && templates == old(templates)
      ensures FindOwned(old(templates), tid, owner).Some? && name.Some? ==>
                var k := FindOwned(old(templates), tid, owner).value;
                && r == Ok(Template(tid, owner, name.value, subTypes))
                && templates == old(templates)[k := r.value]
    {
      var found := FindOwned(templates, tid, owner);
      if found.None? {
        return Err(TemplateNotFound);
      }
      var k := found.value;
      if name.None? {
        return Err(IntegrityError);
      }
      var updated := templates[k].(name := name.value, subTypes := subTypes);
      RenameKeepsConsistent(templates, versions, nextId, k, name.value, subTypes);
      templates := templates[k := updated];
      r := Ok(updated);
    }
  }

  /** What a template response needs (app/schemas.py:62-67): tags that are a list rather than
      null, and a newest version. */
  predicate Presentable<D>(t: Template, vs: seq<Version<D>>)
  {
    t.subTypes.Some? && Latest(vs, t.id).Some?
  }

  /** Under the invariant every template has a newest version, so a template fails to be
      presented exactly when its tags are null. */
  lemma PresentableUnlessNullTags<D>(ts: seq<Template>, vs: seq<Version<D>>, next: nat, k: nat)
    requires Consistent(ts, vs, next) && k < |ts|
    ensures Presentable(ts[k], vs) <==> ts[k].subTypes.Some?
  {
    LatestIsNewest(ts, vs, next, k);
  }
}
