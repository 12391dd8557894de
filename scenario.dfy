/** Clients of the store that run the life of one template: create with a first payload, list,
    look it up as another user, add a second version, list the history, read both versions
    back, then delete. What they assert follows from the handlers' contracts and the invariant
    lemmas alone. */
module Scenario {
  import opened Records
  import opened Queries
  import opened Consistency
  import opened Templates

  /** A new template is listed for its owner with version 1, and hidden from anyone else. */
  method CreateAndList<D>(owner: UserId, other: UserId, first: D)
    requires owner != other
  {
    var store := new TemplateStore<D>();
    var id, v := store.CreateTemplate(owner, "A4", ["cover"], first);
    assert v == 1;
    var firstId := store.versions[0].id;

    var listed := store.GetTemplates(owner);
    assert store.templates[0].owner == owner;
    LatestIsNewest(store.templates, store.versions, store.nextId, 0);
    assert VersionsOf(store.versions, id) == [store.versions[0]];
    assert Presentable(store.templates[0], store.versions);
    assert listed.Ok? && |listed.value| == 1;
    assert listed.value[0].latest == VersionSummary(firstId, 1);

    var foreign := store.GetTemplate(id, other);
    assert foreign == Err(TemplateNotFound);
  }

  /** A second version is numbered 2, the history lists 1 then 2, and both payloads read back. */
  method TwoVersions<D>(owner: UserId, first: D, second: D)
  {
    var store := new TemplateStore<D>();
    var id, v := store.CreateTemplate(owner, "A4", ["cover"], first);
    var firstId := store.versions[0].id;
    assert VersionsOf(store.versions, id) == [store.versions[0]];

    var added := store.AddVersion(id, owner, second);
    assert added == Ok(2);
    var secondId := store.versions[1].id;

    var history := store.ListVersions(id, owner);
    ListedVersionsNumbered(store.templates, store.versions, store.nextId, 0);
    assert history.Ok? && |history.value| == 2;
    assert history.value[0].number == 1 && history.value[1].number == 2;

    var old1 := store.GetVersion(id, firstId, owner);
    assert old1 == Ok(Version(firstId, id, 1, first));
    var new2 := store.GetVersion(id, secondId, owner);
    assert new2 == Ok(Version(secondId, id, 2, second));
  }

  /** Deleting the template removes its versions, and it is no longer found. */
  method CreateAndDelete<D>(owner: UserId, first: D)
  {
    var store := new TemplateStore<D>();
    var id, v := store.CreateTemplate(owner, "A4", ["cover"], first);
    var gone := store.DeleteTemplate(id, owner);
    assert gone == Ok(());
    assert store.versions == [];
    var after := store.ListVersions(id, owner);
    assert after == Err(TemplateNotFound);
  }

  /** An update with only a name stores null tags; from then on both reads of the template fail
      response validation. An update without a name is refused and changes nothing. */
  method PartialUpdate<D>(owner: UserId, first: D)
  {
    var store := new TemplateStore<D>();
    var id, v := store.CreateTemplate(owner, "A4", ["cover"], first);
    var refused := store.UpdateMetadata(id, owner, None, Some(["menu"]));
    assert refused == Err(IntegrityError);
    assert store.templates == [Template(id, owner, "A4", Some(["cover"]))];

    var renamed := store.UpdateMetadata(id, owner, Some("A5"), None);
    assert renamed == Ok(Template(id, owner, "A5", None));
    assert VersionsOf(store.versions, id) == [store.versions[0]];
    var one := store.GetTemplate(id, owner);
    assert one == Err(ValidationError);
    var all := store.GetTemplates(owner);
    assert !Presentable(store.templates[0], store.versions);
    assert all == Err(ValidationError);
  }
}
