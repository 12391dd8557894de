# Versioned template store

A model of the store behind the template routes of VDTE. A user owns *templates* (a name plus a
list of sub-template type tags). Each template has a history of immutable *versions*, and each
version holds an opaque payload. The store has two tables:

- `templates`: rows `Template(id, owner, name, subTypes)`, where `subTypes` is `None` when the
  JSONB tags column holds JSON `null`;
- `versions`: rows `Version(id, templateId, number, data)`, with the payload type as a type parameter `D`.

The eight route handlers are the methods of `Templates.TemplateStore`. Each one is a single
sequential step on the two tables. The authenticated user comes in as the `owner` parameter.
Every per-template handler first looks up the template by id AND owner (`Queries.FindOwned`).
So an absent id and another user's id both end in the same `TemplateNotFound`, and that error
leaves the store unchanged.

The database queries the handlers issue (`filter`, `order_by`, `first`, `all`) are functions in
module `Queries`. Module `Consistency` holds the store invariant and the lemmas that each
state-changing handler preserves it. The invariant is:

- template ids are unique, and so are version ids;
- every version row belongs to an existing template, so there are no orphans;
- each template's history, in table order, is numbered 1, 2, ..., k with k ≥ 1.

Module `Scenario` is a client. It creates a template, adds a second version, lists the history,
reads both versions back and deletes the template. It also shows a name-only metadata update
breaking later reads. It asserts only what the contracts give.

In three places the code does something other than what the routes evidently intend. The model follows the code:

- **Metadata update.** `update_metadata` writes every field of the request body to the row,
  including a field the client left out, which defaults to `None`
  (app/routers/templates.py:270-271, app/schemas.py:77-78). It is not a merge that skips absent
  fields. The two columns treat that `None` differently (app/models.py:28-29):
  - `name` is a NOT NULL `String`, so a missing name is SQL NULL and the commit fails. The model
    returns `IntegrityError` and changes nothing.
  - `sub_template_types` is a `JSONB` column, and SQLAlchemy writes a Python `None` there as the
    JSON value `null`, which NOT NULL does not refuse. An update with a name and no tags commits
    and stores null tags.
  From then on `get_template` and `get_templates` fail for that user, because the response schema
  requires a list of tags (app/schemas.py:64). The model returns `ValidationError` there, and
  `Scenario.PartialUpdate` runs through this sequence.
- **Missing version.** `get_versions` reads the looked-up row without checking that it exists
  (app/routers/templates.py:245-250). A version id that does not match ends in an unhandled error
  (`InternalError`), not in a distinct "version not found".
- **Template with no versions.** `get_template` has the same unchecked read for the newest version
  (app/routers/templates.py:116). The model keeps that `InternalError` path.
  `Consistency.OwnedTemplateHasLatest` shows the path cannot be reached while the invariant holds.

Version numbers: `add_version` computes highest + 1 with Python's unbounded integers, and the
model's `int` is unbounded too. The version column is a 32-bit `Integer` (app/models.py:42), so
a number above 2^31 − 1 (`Records.MaxVersion`) is refused when the row is committed. The model
returns `OutOfRange` then and changes nothing.

Ids: the store draws them from a counter `nextId` where the database generates UUIDs. Every id
handed out is above every id in use.

## Model

| member | source | states |
|---|---|---|
| `Templates.TemplateStore.CreateTemplate` | app/routers/templates.py:25-53 | appends exactly one template row (fresh id, caller as owner, given name and tags) and exactly one version row (fresh id, number 1, given payload) for it, returns version 1, and keeps the invariant |
| `Templates.TemplateStore.GetTemplates` | app/routers/templates.py:58-90 | `ValidationError` exactly when some template of the caller has null tags or no version; otherwise one listing per template of the caller and no other, in table order, each with the summary of that template's highest-numbered version |
| `Templates.TemplateStore.GetTemplate` | app/routers/templates.py:95-116 | `TemplateNotFound` exactly when no template has this id and this owner; otherwise `InternalError` when it has no version, `ValidationError` when its tags are null, and else the caller's template with its highest-numbered version in full |
| `Templates.TemplateStore.DeleteTemplate` | app/routers/templates.py:121-145 | when owned: removes that template row and every version row with its id, deleting them one at a time, and keeps every other row in order with the invariant; otherwise `TemplateNotFound` with both tables unchanged |
| `Templates.TemplateStore.AddVersion` | app/routers/templates.py:150-182 | when owned: appends one row numbered highest existing + 1 (which equals the history length + 1), leaves every earlier row and the templates untouched, keeps the invariant; `OutOfRange` with nothing changed when that number does not fit the 32-bit version column; otherwise `TemplateNotFound` with nothing changed |
| `Templates.TemplateStore.ListVersions` | app/routers/templates.py:187-215 | when owned: the summaries of exactly this template's versions, as many as it has, sorted ascending by number; otherwise `TemplateNotFound` |
| `Templates.TemplateStore.GetVersion` | app/routers/templates.py:223-250 | `TemplateNotFound` exactly when the template is not the caller's; otherwise a row with both the requested version id and the requested template id, or `InternalError` when there is none, so no cross-template read is possible |
| `Templates.TemplateStore.UpdateMetadata` | app/routers/templates.py:255-275 | when owned and a name given: the row gets exactly that name and the given tags, null when they are missing, and keeps its id and owner, with no other row, version or id changed; when the name is missing: `IntegrityError` with nothing changed; otherwise `TemplateNotFound` |
| `Templates.PresentableUnlessNullTags` | app/routers/templates.py:73-87 | under the invariant a template can be put in a response exactly when its tags are not null, so null tags are the only way the template reads fail validation |
| `Queries.FindOwned` | app/routers/templates.py:100-104 | finds a row with both the id and the owner, and finds none exactly when no row matches both, so an absent id and a foreign id look the same |
| `Queries.OwnedTemplates` | app/routers/templates.py:61 | a template is in the result exactly when it is in the table and the caller owns it |
| `Queries.VersionsOf` | app/routers/templates.py:135-139 | the history holds exactly the rows whose template id matches |
| `Queries.OthersOf` | app/routers/templates.py:141-144 | what the cascade leaves behind: exactly the rows whose template id differs |
| `Queries.Drop` | app/routers/templates.py:141-142 | after `db.delete`, the table holds exactly the rows whose id is not among the deleted ids |
| `Queries.Latest` | app/routers/templates.py:166-171 | None exactly when the template has no version; otherwise one of its rows whose number is at least every other number it has |
| `Queries.NextNumber` | app/routers/templates.py:173 | exceeds every number the template has; is 1 when it has none; is otherwise one more than a number it has, i.e. highest + 1 |
| `Queries.FindVersion` | app/routers/templates.py:237-243 | a result is a row of the table with both the requested template id and version id; None exactly when no row has both |
| `Queries.OrderByNumber` | app/routers/templates.py:200-205 | the result is ascending by number and a permutation of the input |
| `Queries.VersionsOfAppend` | app/routers/templates.py:176-179 | an appended row extends its own template's history at the end and no other history |
| `Queries.FindVersionAppend` | app/routers/templates.py:176-179 | after an append, looking up an existing version returns the same row, payload included |
| `Queries.OthersOfKeepsHistories` | app/routers/templates.py:135-144 | removing one template's rows leaves every other template's history identical |
| `Queries.DropMatching` | app/routers/templates.py:141-142 | deleting the rows whose ids are in a set is the same as removing one template's rows, when the set holds exactly that template's row ids |
| `Queries.OrderByNumberOfAscending` | app/routers/templates.py:203 | sorting rows already ascending by number leaves them unchanged |
| `Consistency.NextNumberIsCount` | app/routers/templates.py:173 | under the invariant the next number is the history length + 1 |
| `Consistency.LatestIsNewest` | app/routers/templates.py:109-114 | under the invariant every template has a newest version, and its number is the history length |
| `Consistency.VersionNumbersExact` | app/routers/templates.py:165-179 | under the invariant the numbers of each template are exactly {1..k}, k ≥ 1, and no two of its rows share a number |
| `Consistency.ListedVersionsNumbered` | app/routers/templates.py:200-215 | under the invariant the sorted history is the history itself, and its i-th entry has number i + 1, so the listing is strictly ascending 1..k |
| `Consistency.CreateKeepsConsistent` | app/routers/templates.py:31-47 | a fresh template with its version 1 keeps the invariant |
| `Consistency.AppendKeepsConsistent` | app/routers/templates.py:165-180 | appending the version numbered `NextNumber` keeps the invariant, with contiguous numbering |
| `Consistency.DeleteKeepsConsistent` | app/routers/templates.py:135-145 | removing a template and its rows keeps the invariant (no orphans), leaves no row of the deleted id, and leaves every other history as it was |
| `Consistency.CascadeDrop` | app/routers/templates.py:135-144 | deleting, one id at a time, the rows the query for a template returned leaves exactly the other templates' rows |
| `Consistency.DeletedIsNotFound` | app/routers/templates.py:126-133 | once a template is deleted, no owner's lookup of its id succeeds |
| `Consistency.OwnedTemplateHasLatest` | app/routers/templates.py:109-116 | under the invariant a template the caller owns always has a newest version, so `GetTemplate` never ends in `InternalError` |
| `Consistency.RenameKeepsConsistent` | app/routers/templates.py:269-275 | rewriting a template's name and tags keeps the invariant |

## Left out

- User registration, password hashing and token issuing/checking (app/auth/routes.py) are not modelled. The authenticated user is a parameter. app/auth/security is not part of this model.
- Settings loading (app/config.py) and app wiring with the ping endpoint (app/main.py) are I/O with no store logic.
- Database mechanics are not modelled: sessions, `add`/`commit`/`refresh`, HTTP status codes and `response_model` filtering. Errors are the five `Records.Error` kinds.
- Schema validation is modelled only where it can fail for rows the store holds: null tags or no newest version when a template response is built (app/routers/templates.py:73-87, app/schemas.py:64-67). Request bodies are taken as already validated.
- `ListVersions`: the handler builds a list of summaries, then returns the raw version rows (app/routers/templates.py:207-215). The response model reduces those rows to the same summaries, and the method returns them.
- `UpdateMetadata`: the `setattr` loop runs over exactly the two fields of the update (name, tags). It is written as one assignment of both fields.
- Creation timestamps are not modelled. Their defaults are fixed once at import. The handlers copy `created_at` into their responses, but no operation's logic depends on it.
- Payload validation is library behaviour. The payload is an opaque type parameter.
- Concurrency is not modelled. Every handler is one atomic step, so the add_version race (no unique constraint on template id and number) and the two separate commits in create_template are out of scope.
- Row order of queries without `order_by` is unspecified in the database. The model uses table order. When numbers tie, `order_by(version.desc()).first()` may return any of the tied rows; `Queries.Latest` picks one, and under the invariant numbers never tie.
