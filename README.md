# MarkconsAPI service layer in Dafny

This project models the service layer of MarkconsAPI, a small HTTP service that stores markdown documents. The layer has three parts:

- **`ErroOr<T>`**: the result type every operation returns, either a success carrying a result or a failure carrying an error string. Its three properties are `IsSuccess`, `Result` and `Error`.
- **`ToErroOrFailure`**: turns a caught fault and an operation code into the failure `"Código: <code>, Erro: <cause>"`. The cause is the message of the fault's immediate inner fault, or the fault's own message when it has none.
- **`MarkService`**: seven operations over one collection of `MarkdownFile` records (`Id`, `Title`, `Content`). These are Create, GetAll, GetById, GetByPrefix, GetByTitle, Update and Delete. Each one catches any fault the store raises and returns it as a failure tagged with its own code.

Files and modules. `Strings` holds shared text helpers; the other three follow the source's namespaces:

- `strings.dfy` (`Strings`): ASCII lower-casing and substring containment. These are the ingredients of the case-insensitive, unanchored search.
- `extensions.dfy` (`Extensions`): `ErroOr`, `Fault`, `Cause`, `FailureMessage`, `ToErroOrFailure`.
- `models.dfy` (`Models`): the `MarkdownFile` record, its generated default id, and the textual form of a key.
- `services.dfy` (`Services`): the matching rules, the table operations the store performs, the `MarkService` class and the client methods `Example*`, which walk through a create, a create with an empty id, a search, an update, an update of an absent key and a lookup with a malformed key.

How the store is modelled:

- The MongoDB collection is the class field `table: seq<MarkdownFile>`, kept in insertion order, which is one order the store may return.
- The class invariant `Valid()` says that no two records share an id (the collection's unique `_id` index), and that every stored id is canonical: 24 lower-case hexadecimal digits, so never empty.
- The key is declared with an ObjectId representation (Models/MarkdownFile.cs:9), so its serializer parses every id it handles. This happens on insert and in the id filters of GetById, Update and Delete. A parseable id denotes its lower-cased digits (`CanonicalId`), which is how a stored key reads back.
- On insert, the key's id generator first counts an empty id as unset and replaces it with a fresh ObjectId (the input `generated`). So Create accepts `""` and stores the record under the fresh id (`StoredId`). Any other id that is not 24 hexadecimal digits (either case) makes Create fail with a format fault tagged `Markdown.Create`.
- The id filters of GetById, Update and Delete have no generator. There, every id that is not 24 hexadecimal digits, `""` included, makes the call fail with a format fault under the operation's own code.
- Every operation takes a `fault: Option<Fault>` input. `Some(f)` means the store raises `f` for this call. A raised fault leaves the table unchanged, and the operation returns `ToErroOrFailure(f, code)`.
- The reads (`GetAllAsync`, `GetByIdAsync`, `GetByPrefixAsync`, `GetByTitleAsync`) change nothing.
- `CreateAsync`, `UpdateAsync` and `DeleteAsync` set `table` to a function of its old value: `old(table) + [WithId(mark, StoredId(mark.id, generated))]` (the stored id), `Replaced(...)` or `Removed(...)`. Lemmas prove what those functions keep and change.
- Search is case-insensitive substring containment on the title (GetByTitle), or on the title or the content (GetByPrefix). Despite its name, GetByPrefix is not anchored at the start.

Two details of the code worth knowing:

- The cause of a converted failure is the immediate inner fault's message. Only one level is unwrapped (`OnlyOneLevelUnwrapped`).
- Update's not-found failure reads `Markdown não encontrado.`.

## Model

| member | source | states |
|---|---|---|
| `Extensions.Success` | Extensions/ErroOr.cs:9-14 | The success factory (line 23) gives `IsSuccess`, `Result == Some(v)`, `Error == None`, for any payload, a null-like one included |
| `Extensions.Failed` | Extensions/ErroOr.cs:16-21 | The failure factory (line 25) gives `!IsSuccess`, `Result == None` (the default), `Error == Some(e)`, for any string |
| `Extensions.ExactlyOneMeaningful` | Extensions/ErroOr.cs:5-7 | `IsSuccess` holds exactly when `Result` is meaningful (set by the success constructor, a null payload included), and exactly when `Error` is absent |
| `Extensions.StructuralEquality` | Extensions/ErroOr.cs:3 | Two values with equal `IsSuccess`, `Result` and `Error` are equal |
| `Extensions.Cause` | Extensions/ExceptionExtensions.cs:7 | The cause is the immediate inner fault's message when an inner fault exists, otherwise the outer fault's message |
| `Extensions.FailureMessageMentions` | Extensions/ExceptionExtensions.cs:8 | The failure message starts with `"Código: " + code` and contains the code and the cause verbatim |
| `Extensions.ToErroOrFailure` | Extensions/ExceptionExtensions.cs:5-9 | Always a failure; its error is exactly `"Código: " + code + ", Erro: " + Cause(ex)` and contains both the code and the cause |
| `Extensions.OnlyOneLevelUnwrapped` | Extensions/ExceptionExtensions.cs:7 | For a fault nested two deep, the message carries the middle fault's message, whatever the deepest fault is |
| `Models.NewMarkdownFile` | Models/MarkdownFile.cs:11-13 | A new record's id is the generated id, a canonical 24-digit hexadecimal ObjectId string, with no caller input; title and content are taken as given, unvalidated |
| `Models.CanonicalId` | Models/MarkdownFile.cs:8-11 | The key an id denotes under the ObjectId representation: a parseable id (24 hex digits of either case) becomes canonical, and a canonical id is kept as it is |
| `Models.StoredId` | Models/MarkdownFile.cs:9-11 | The key an insert stores: the generator's fresh id when the caller's id is empty, otherwise the id's canonical form; either way a canonical 24-digit ObjectId string |
| `Models.WithId` | Models/MarkdownFile.cs:11 | Setting `Id` replaces the generated id with the caller's and leaves title and content alone |
| `Services.FindIndex` | Services/MarkService.cs:48-49 | The position of the first record whose id equals the argument; none exactly when no record has that id |
| `Services.Find` | Services/MarkService.cs:48-49 | `FirstOrDefault`: a record exactly when some record has the id, and then a record of the table with that id |
| `Services.Filter` | Services/MarkService.cs:63-66 | A search returns no more records than the table holds; a record is returned exactly when it is in the table and matches on the searched fields |
| `Services.Replaced` | Services/MarkService.cs:95-100 | An update keeps the table's length and every record's id, and changes nothing when the id is absent |
| `Services.Removed` | Services/MarkService.cs:117-118 | A delete removes one record when the id is present and none (table unchanged) otherwise |
| `Services.MarkService.constructor` | Services/MarkService.cs:12-16 | The service starts over the collection's current records, whose ids are canonical and unique |
| `Services.MarkService.CreateAsync` | Services/MarkService.cs:18-29 | No fault and a new key: `Success(true)`, the record is appended under its stored key (the generator's fresh id for an empty id, otherwise the canonical id) and a lookup of that key finds it. A store fault, a non-empty id that is not 24 hex digits, or a taken key: a failure tagged `Markdown.Create`, table unchanged |
| `Services.MarkService.GetAllAsync` | Services/MarkService.cs:31-42 | No fault: a success carrying the whole table, unfiltered. A fault: a failure tagged `Markdown.GetAll` |
| `Services.MarkService.GetByIdAsync` | Services/MarkService.cs:44-56 | No fault and a parseable id: always a success, carrying a record exactly when some record has the id's canonical form, and that record has it. A store fault or an id that is not 24 hex digits: a failure tagged `Markdown.GetById` |
| `Services.MarkService.GetByPrefixAsync` | Services/MarkService.cs:59-74 | No fault: a success carrying exactly the table's records whose title or content contains the text, ignoring case (listed in table order). A fault: a failure tagged `Markdown.GetByPrefix` |
| `Services.MarkService.GetByTitleAsync` | Services/MarkService.cs:76-89 | No fault: a success carrying exactly the table's records whose title contains the text, ignoring case (listed in table order). A fault: a failure tagged `Markdown.GetByTitle` |
| `Services.MarkService.UpdateAsync` | Services/MarkService.cs:91-111 | Parseable id present: `Success(matched 1)`, only that record's title and content are overwritten, and GetById then sees them under the same id. Parseable id absent: a failure containing `Markdown.UpdateAsync` and `Markdown não encontrado.`, table unchanged. A store fault or an id that is not 24 hex digits: a failure tagged `Markdown.UpdateAsync`, table unchanged |
| `Services.MarkService.DeleteAsync` | Services/MarkService.cs:113-125 | No fault and a parseable id: a success counting 1 or 0 removed records, and the table keeps exactly the records with another key (an absent id changes nothing). A store fault or an id that is not 24 hex digits: a failure tagged `Markdown.Delete`, table unchanged |
| `Services.InsertKeepsKeysUnique` | Services/MarkService.cs:22 | Inserting a record with a new canonical id keeps ids canonical and unique, and a lookup of that id then returns the record |
| `Services.LookupComparesOnlyKeys` | Services/MarkService.cs:48 | The id filter compares ids only: two tables with the same ids position by position give the same lookup result |
| `Services.ReplacedKeepsKeys` | Services/MarkService.cs:95-98 | An update keeps ids canonical and unique and leaves the set of present ids as it was |
| `Services.UpdateOverwritesOnlyMatch` | Services/MarkService.cs:95-100 | With unique ids, the record with the id becomes `(id, newTitle, newContent)` and every other record is unchanged |
| `Services.UpdateVisibleToLookup` | Services/MarkService.cs:95-100 | After updating a present id, a lookup of it returns the original id with the new title and content |
| `Services.RemovedExactlyOne` | Services/MarkService.cs:117-118 | With unique ids, a delete keeps exactly the records with another id, keeps ids canonical and unique, and leaves no record with the id |
| `Services.TitleSearchWithinPrefixSearch` | Services/MarkService.cs:63-65 | The title search's result is exactly the title matches among the title-or-content search's result (line 80), in the same order, so every title result is also a prefix result |
| `Services.SearchIgnoresCase` | Services/MarkService.cs:64-65 | Search texts that differ only in the case of ASCII letters return the same records |
| `Services.EmptySearchReturnsAll` | Services/MarkService.cs:64-65 | The empty search text matches every record, so the whole table comes back |
| `Services.SessionSearchesMatch` | Services/MarkService.cs:80 | A record titled `Intro` with content `hello world` is found by the title search `intro` and by the title-or-content search `world` |

## Left out

- `Services.MarkService.GetByPrefixAsync`: requires a search text without regular-expression metacharacters. Full regex semantics are not modelled, so for such texts the model's substring reading could differ from the store's pattern match.
- `Services.MarkService.GetByTitleAsync`: the same restriction to texts without regular-expression metacharacters.
- `Services.MarkService.GetAllAsync`: the finds of GetAll, GetByPrefix and GetByTitle have no sort, and the store promises no order for them. The model lists results in table (insertion) order. That order is the model's choice, as is the "same order" part of `TitleSearchWithinPrefixSearch`. Only which records come back (`Filter`'s membership ensures and the whole table for GetAll) is what the program promises.
- `Services.Filter`: case folding covers ASCII letters only. The store's Unicode case-insensitive matching is not modelled.
- `Services.MarkService.UpdateAsync`: the result models only `MatchedCount`. `ModifiedCount` (which depends on the driver's rules about unchanged values), `IsAcknowledged` and `UpsertedId` are not modelled.
- `Services.MarkService.DeleteAsync`: the result models only `DeletedCount`, not `IsAcknowledged`.
- `Services.MarkService.CreateAsync`: the store's duplicate-key fault carries a stand-in message. The driver's exact wording (and its wrapping of that fault) is not modelled.
- `Extensions.Failed`: `Result` of a failure is `None`, which stands for `default(T)`. The concrete default of a value type (for example `false` for `bool`) is not represented.
- A store fault is assumed to happen before any change, so a failed call leaves the table unchanged. Partial writes are not modelled.
- `Services.MarkService.CreateAsync`: when the generator fills in an empty id, it also writes that id back into the caller's object. The model records the stored record only, not that write to the argument.
- `Services.IdFormatFault`: the format fault the key's serializer raises for a malformed id carries a stand-in message. The serializer's exact wording, and how the driver wraps it, are not modelled.
- `null` titles, contents and ids are not modelled. Strings are always present.
- `ObjectId.GenerateNewId()` is an input (`generated`), not its byte layout, clock or counter.
- `async`/`await` and concurrent requests: each operation is one sequential method. Races between concurrent updates belong to the store.
- Connecting to the database (`GetDatabase("Markcons")`, `GetCollection("MarkdownFiles")`) is replaced by the constructor's initial table.
- Program.cs is not part of this model. It holds HTTP routes, Swagger metadata, JWT configuration, DI wiring, the `IsSuccess` to 400/200 mapping and the placeholder `admin`/`admin` login.
- Auth/JwtAuthentication.cs is not part of this model. It does HMAC-SHA256 token signing and reads the wall clock.
