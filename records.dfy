/** Row and response shapes of the template store.

    A `Template` row carries its id, its owning user, a display name and the list of
    sub-template type tags, which is a JSONB column and so can hold the JSON value `null`; a `Version` row carries its id, the id of the template it
    belongs to, its version number and an opaque payload of type `D`. Creation
    timestamps are not modelled: no operation depends on them. */
module Records {

  /** Primary keys (UUIDs in the database) and user identifiers. */
  type Id = nat
  type UserId = nat

  datatype Option<T> = None | Some(value: T)

  /** `subTypes == None` is a row whose tags column holds JSON `null`. */
  datatype Template = Template(id: Id, owner: UserId, name: string, subTypes: Option<seq<string>>)

  datatype Version<D> = Version(id: Id, templateId: Id, number: int, data: D)

  /** The largest value of the version column, a 32-bit signed `Integer`. */
  const MaxVersion: int := 0x7fff_ffff

  /** The short view of a version that listings return: id and number, no payload. */
  datatype VersionSummary = VersionSummary(id: Id, number: int)

  /** One entry of the template listing: the template and a summary of its newest version. */
  datatype Listing = Listing(template: Template, latest: VersionSummary)

  /** The single-template view: the template and its newest version in full. */
  datatype Detail<D> = Detail(template: Template, latest: Version<D>)

  /** Failures a handler can end in.
      - TemplateNotFound: the 404 "Template not found", raised when no template has the
        requested id AND the caller as owner (absent and foreign ids are not told apart);
      - InternalError: an attribute read on a missing row (HTTP 500);
      - IntegrityError: the database refused a NULL in a NOT NULL column at commit (HTTP 500);
      - ValidationError: a response schema refused a missing value, such as null tags or no
        newest version (HTTP 500);
      - OutOfRange: a version number too large for the version column, refused at commit (HTTP 500). */
  datatype Error = TemplateNotFound | InternalError | IntegrityError | ValidationError | OutOfRange

  datatype Result<T> = Ok(value: T) | Err(error: Error)

  function Summary<D>(v: Version<D>): VersionSummary
  {
    VersionSummary(v.id, v.number)
  }
}
