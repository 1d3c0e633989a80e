/**
 * The document service: seven operations over one collection of markdown
 * records. The collection is an in-memory table held in the service, in
 * the store's natural (insertion) order; a fault the store raises is an
 * explicit input of each operation, and a raised fault leaves the table
 * as it was.
 */
module Services {
  import opened Strings
  import opened Extensions
  import opened Models

  const DatabaseName: string := "Markcons"
  const CollectionName: string := "MarkdownFiles"

  // The code each operation tags its failures with.
  const CreateCode: string := "Markdown.Create"
  const GetAllCode: string := "Markdown.GetAll"
  const GetByIdCode: string := "Markdown.GetById"
  const GetByPrefixCode: string := "Markdown.GetByPrefix"
  const GetByTitleCode: string := "Markdown.GetByTitle"
  const UpdateCode: string := "Markdown.UpdateAsync"
  const DeleteCode: string := "Markdown.Delete"

  /** The fault Update raises itself when no record has the id. */
  const NotFoundMessage: string := "Markdown não encontrado."
  const NotFoundFault: Fault := Fault(NotFoundMessage, None)

  /**
   * The fault the store raises when an insert reuses an existing key (its
   * unique `_id` index). The driver's exact wording is not modelled; this
   * message stands in for it.
   */
  function DuplicateKeyFault(id: string): Fault
  {
    Fault("E11000 duplicate key error collection: " + DatabaseName + "." + CollectionName
          + " index: _id_ dup key: { _id: " + id + " }", None)
  }

  /**
   * The fault the key's serializer raises for an id that is not 24
   * hexadecimal digits, whether the id is being inserted or used in a
   * filter. The exact wording is not modelled; this message stands in for it.
   */
  function IdFormatFault(id: string): Fault
  {
    Fault("'" + id + "' is not a valid 24 digit hex string.", None)
  }

  /** The store's answer to an update: how many records the filter matched. */
  datatype UpdateResult = UpdateResult(matchedCount: nat)

  /** The store's answer to a delete: how many records it removed. */
  datatype DeleteResult = DeleteResult(deletedCount: nat)

  /*** Matching rules ***/

  /** Some record of `t` has key `id`. */
  predicate HasId(t: seq<MarkdownFile>, id: string)
  {
    exists i :: 0 <= i < |t| && t[i].id == id
  }

  /** The key index of the collection: no two records share an id. */
  predicate UniqueIds(t: seq<MarkdownFile>)
  {
    forall i, j :: 0 <= i < |t| && 0 <= j < |t| && t[i].id == t[j].id ==> i == j
  }

  /** The collection's key index: every key is a canonical identifier, and no two records share one. */
  predicate WellKeyed(t: seq<MarkdownFile>)
  {
    UniqueIds(t) && forall i :: 0 <= i < |t| ==> IsObjectIdString(t[i].id)
  }

  /** The characters a regular expression gives a meaning of their own. */
  const RegexMetacharacters: set<char> := {'\\', '^', '$', '.', '|', '?', '*', '+', '(', ')', '[', ']', '{', '}'}

  /** A search text that, read as a regular expression, only matches itself. */
  predicate PlainPattern(text: string)
  {
    forall i :: 0 <= i < |text| ==> text[i] !in RegexMetacharacters
  }

  /** Which fields a search looks at. */
  datatype SearchScope = TitleOnly | TitleOrContent

  /** An unanchored, case-insensitive match of `text` on the fields of `scope`. */
  predicate Matches(m: MarkdownFile, text: string, scope: SearchScope)
  {
    match scope
    case TitleOnly => ContainsIgnoreCase(m.title, text)
    case TitleOrContent => ContainsIgnoreCase(m.title, text) || ContainsIgnoreCase(m.content, text)
  }

  /*** The table operations the store performs ***/

  /** The position of the first record with key `id`, if any. */
  function FindIndex(t: seq<MarkdownFile>, id: string): (k: Option<nat>)
    ensures k.Some? ==> k.value < |t| && t[k.value].id == id
    ensures k.Some? ==> forall j :: 0 <= j < k.value ==> t[j].id != id
    ensures k.None? <==> !HasId(t, id)
  {
    if t == [] then None
    else if t[0].id == id then Some(0)
    else
      match FindIndex(t[1..], id)
      case None =>
        assert forall i :: 1 <= i < |t| ==> t[i] == t[1..][i - 1];
        None
      case Some(j) => Some(j + 1)
  }

  /** The first record with key `id`, or nothing. */
  function Find(t: seq<MarkdownFile>, id: string): (r: Option<MarkdownFile>)
    ensures r.Some? <==> HasId(t, id)
    ensures r.Some? ==> r.value in t && r.value.id == id
  {
    match FindIndex(t, id)
    case None => None
    case Some(k) => Some(t[k])
  }

  /** The records of `t` that match `text` on `scope`, in table order. */
  function Filter(t: seq<MarkdownFile>, text: string, scope: SearchScope): (r: seq<MarkdownFile>)
    ensures |r| <= |t|
    ensures forall m :: m in r <==> m in t && Matches(m, text, scope)
  {
    if t == [] then []
    else
      var rest := Filter(t[1..], text, scope);
      assert forall m :: m in t <==> m == t[0] || m in t[1..];
      if Matches(t[0], text, scope) then [t[0]] + rest else rest
  }

  /** `t` with the title and content of the first record with key `id` overwritten. */
  function Replaced(t: seq<MarkdownFile>, id: string, title: string, content: string): (u: seq<MarkdownFile>)
    ensures |u| == |t|
    ensures forall i :: 0 <= i < |t| ==> u[i].id == t[i].id
    ensures !HasId(t, id) ==> u == t
  {
    match FindIndex(t, id)
    case None => t
    case Some(k) => t[k := MarkdownFile(t[k].id, title, content)]
  }

  /** `t` without the first record with key `id`. */
  function Removed(t: seq<MarkdownFile>, id: string): (u: seq<MarkdownFile>)
    ensures |u| == if HasId(t, id) then |t| - 1 else |t|
    ensures !HasId(t, id) ==> u == t
  {
    match FindIndex(t, id)
    case None => t
    case Some(k) => t[..k] + t[k + 1..]
  }

  /*** The service ***/

  class MarkService {
    /** The collection's records, in the store's natural order. */
    var table: seq<MarkdownFile>

    ghost predicate Valid()
      reads this
    {
      WellKeyed(table)
    }

    /** A service over a collection that already holds `existing`. */
    constructor (existing: seq<MarkdownFile>)
      requires WellKeyed(existing)
      ensures Valid() && table == existing
    {
      table := existing;
    }

    /**
     * Inserts `mark` as a new document and answers `true`. An empty id is
     * replaced by the fresh one the id generator supplies (`generated`);
     * any other id is kept in canonical form, and one that is not 24
     * hexadecimal digits, or a key already taken, is refused.
     */
    method CreateAsync(mark: MarkdownFile, generated: ObjectIdString, fault: Option<Fault>) returns (r: ErroOr<bool>)
      requires Valid()
      modifies this
      ensures Valid()
      ensures fault.Some? ==> r == ToErroOrFailure(fault.value, CreateCode) && table == old(table)
      ensures fault.None? && mark.id != "" && !ParsesAsObjectId(mark.id) ==>
                r == ToErroOrFailure(IdFormatFault(mark.id), CreateCode) && table == old(table)
      ensures fault.None? && (mark.id == "" || ParsesAsObjectId(mark.id))
              && HasId(old(table), StoredId(mark.id, generated)) ==>
                r == ToErroOrFailure(DuplicateKeyFault(StoredId(mark.id, generated)), CreateCode)
                && table == old(table)
      ensures fault.None? && (mark.id == "" || ParsesAsObjectId(mark.id))
              && !HasId(old(table), StoredId(mark.id, generated)) ==>
                r == Success(true)
                && table == old(table) + [WithId(mark, StoredId(mark.id, generated))]
                && Find(table, StoredId(mark.id, generated)) == Some(WithId(mark, StoredId(mark.id, generated)))
      ensures !r.IsSuccess() ==> Contains(r.message, CreateCode)
    {
      if fault.Some? {
        r := ToErroOrFailure(fault.value, CreateCode);
      } else if mark.id != "" && !ParsesAsObjectId(mark.id) {
        r := ToErroOrFailure(IdFormatFault(mark.id), CreateCode);
      } else {
        var key := StoredId(mark.id, generated);
        if HasId(table, key) {
          r := ToErroOrFailure(DuplicateKeyFault(key), CreateCode);
        } else {
          var stored := WithId(mark, key);
          InsertKeepsKeysUnique(table, stored);
          table := table + [stored];
          r := Success(true);
        }
      }
    }

    /** Every record of the collection, unfiltered. */
    method GetAllAsync(fault: Option<Fault>) returns (r: ErroOr<seq<MarkdownFile>>)
      ensures fault.Some? ==> r == ToErroOrFailure(fault.value, GetAllCode)
      ensures fault.None? ==> r == Success(table)
      ensures !r.IsSuccess() ==> Contains(r.message, GetAllCode)
    {
      match fault
      case Some(ex) => r := ToErroOrFailure(ex, GetAllCode);
      case None => r := Success(table);
    }

    /**
     * The first record whose key is `id`. No match is still a success,
     * one carrying no record; an id that is not 24 hexadecimal digits is a
     * failure.
     */
    method GetByIdAsync(id: string, fault: Option<Fault>) returns (r: ErroOr<Option<MarkdownFile>>)
      ensures fault.Some? ==> r == ToErroOrFailure(fault.value, GetByIdCode)
      ensures fault.None? && !ParsesAsObjectId(id) ==> r == ToErroOrFailure(IdFormatFault(id), GetByIdCode)
      ensures fault.None? && ParsesAsObjectId(id) ==> r == Success(Find(table, CanonicalId(id)))
      ensures fault.None? && ParsesAsObjectId(id) ==> (r.value.Some? <==> HasId(table, CanonicalId(id)))
      ensures fault.None? && ParsesAsObjectId(id) && r.value.Some? ==>
                r.value.value in table && r.value.value.id == CanonicalId(id)
      ensures !r.IsSuccess() ==> Contains(r.message, GetByIdCode)
    {
      if fault.Some? {
        r := ToErroOrFailure(fault.value, GetByIdCode);
      } else if !ParsesAsObjectId(id) {
        r := ToErroOrFailure(IdFormatFault(id), GetByIdCode);
      } else {
        r := Success(Find(table, CanonicalId(id)));
      }
    }

    /** The records whose title or content contains `text`, ignoring case. */
    method GetByPrefixAsync(text: string, fault: Option<Fault>) returns (r: ErroOr<seq<MarkdownFile>>)
      requires PlainPattern(text)
      ensures fault.Some? ==> r == ToErroOrFailure(fault.value, GetByPrefixCode)
      ensures fault.None? ==> r == Success(Filter(table, text, TitleOrContent))
      ensures fault.None? ==> forall m :: m in r.value <==>
                m in table && (ContainsIgnoreCase(m.title, text) || ContainsIgnoreCase(m.content, text))
      ensures !r.IsSuccess() ==> Contains(r.message, GetByPrefixCode)
    {
      match fault
      case Some(ex) => r := ToErroOrFailure(ex, GetByPrefixCode);
      case None => r := Success(Filter(table, text, TitleOrContent));
    }

    /** The records whose title contains `text`, ignoring case. */
    method GetByTitleAsync(text: string, fault: Option<Fault>) returns (r: ErroOr<seq<MarkdownFile>>)
      requires PlainPattern(text)
      ensures fault.Some? ==> r == ToErroOrFailure(fault.value, GetByTitleCode)
      ensures fault.None? ==> r == Success(Filter(table, text, TitleOnly))
      ensures fault.None? ==> forall m :: m in r.value <==> m in table && ContainsIgnoreCase(m.title, text)
      ensures !r.IsSuccess() ==> Contains(r.message, GetByTitleCode)
    {
      match fault
      case Some(ex) => r := ToErroOrFailure(ex, GetByTitleCode);
      case None => r := Success(Filter(table, text, TitleOnly));
    }

    /**
     * Overwrites the title and content of the record with key `id` with
     * those of `changes` (whose own id is ignored). No match is a failure,
     * and so is an id that is not 24 hexadecimal digits.
     */
    method UpdateAsync(id: string, changes: MarkdownFile, fault: Option<Fault>) returns (r: ErroOr<UpdateResult>)
      requires Valid()
      modifies this
      ensures Valid()
      ensures fault.Some? ==> r == ToErroOrFailure(fault.value, UpdateCode) && table == old(table)
      ensures fault.None? && !ParsesAsObjectId(id) ==>
                r == ToErroOrFailure(IdFormatFault(id), UpdateCode) && table == old(table)
      ensures fault.None? && ParsesAsObjectId(id) && !HasId(old(table), CanonicalId(id)) ==>
                r == ToErroOrFailure(NotFoundFault, UpdateCode) && table == old(table)
                && Contains(r.message, UpdateCode) && Contains(r.message, NotFoundMessage)
      ensures fault.None? && ParsesAsObjectId(id) && HasId(old(table), CanonicalId(id)) ==>
                r == Success(UpdateResult(1))
                && table == Replaced(old(table), CanonicalId(id), changes.title, changes.content)
                && Find(table, CanonicalId(id)) == Some(MarkdownFile(CanonicalId(id), changes.title, changes.content))
      ensures !r.IsSuccess() ==> Contains(r.message, UpdateCode)
    {
      if fault.Some? {
        r := ToErroOrFailure(fault.value, UpdateCode);
        return;
      }
      if !ParsesAsObjectId(id) {
        r := ToErroOrFailure(IdFormatFault(id), UpdateCode);
        return;
      }
      var key := CanonicalId(id);
      var matched := if HasId(table, key) then 1 else 0;
      ReplacedKeepsKeys(table, key, changes.title, changes.content);
      if matched > 0 {
        UpdateVisibleToLookup(table, key, changes.title, changes.content);
      }
      table := Replaced(table, key, changes.title, changes.content);
      if matched <= 0 {
        r := ToErroOrFailure(NotFoundFault, UpdateCode);
      } else {
        r := Success(UpdateResult(matched));
      }
    }

    /**
     * Removes the record with key `id`; no match is a success that removes
     * nothing. An id that is not 24 hexadecimal digits is a failure.
     */
    method DeleteAsync(id: string, fault: Option<Fault>) returns (r: ErroOr<DeleteResult>)
      requires Valid()
      modifies this
      ensures Valid()
      ensures fault.Some? ==> r == ToErroOrFailure(fault.value, DeleteCode) && table == old(table)
      ensures fault.None? && !ParsesAsObjectId(id) ==>
                r == ToErroOrFailure(IdFormatFault(id), DeleteCode) && table == old(table)
      ensures fault.None? && ParsesAsObjectId(id) ==>
                r == Success(DeleteResult(if HasId(old(table), CanonicalId(id)) then 1 else 0))
                && table == Removed(old(table), CanonicalId(id))
      ensures fault.None? && ParsesAsObjectId(id) ==>
                forall m :: m in table <==> m in old(table) && m.id != CanonicalId(id)
      ensures !r.IsSuccess() ==> Contains(r.message, DeleteCode)
    {
      if fault.Some? {
        r := ToErroOrFailure(fault.value, DeleteCode);
        return;
      }
      if !ParsesAsObjectId(id) {
        r := ToErroOrFailure(IdFormatFault(id), DeleteCode);
        return;
      }
      var key := CanonicalId(id);
      var deleted := if HasId(table, key) then 1 else 0;
      RemovedExactlyOne(table, key);
      table := Removed(table, key);
      r := Success(DeleteResult(deleted));
    }
  }

  /*** Properties of the table operations ***/

  /** Inserting a record whose key is canonical and new keeps the key index, and a lookup then finds it. */
  lemma InsertKeepsKeysUnique(t: seq<MarkdownFile>, mark: MarkdownFile)
    requires WellKeyed(t) && IsObjectIdString(mark.id) && !HasId(t, mark.id)
    ensures WellKeyed(t + [mark])
    ensures Find(t + [mark], mark.id) == Some(mark)
  {
    var u := t + [mark];
    assert u[|t|] == mark;
    assert forall j :: 0 <= j < |t| ==> u[j] == t[j];
  }

  /** A lookup compares keys and nothing else: tables with the same keys give the same position. */
  lemma {:induction false} LookupComparesOnlyKeys(t: seq<MarkdownFile>, u: seq<MarkdownFile>, id: string)
    requires |t| == |u|
    requires forall i :: 0 <= i < |t| ==> t[i].id == u[i].id
    ensures FindIndex(t, id) == FindIndex(u, id)
  {
    if t != [] {
      LookupComparesOnlyKeys(t[1..], u[1..], id);
    }
  }

  /** An update keeps every key, so the key index stays as it was. */
  lemma ReplacedKeepsKeys(t: seq<MarkdownFile>, id: string, title: string, content: string)
    requires WellKeyed(t)
    ensures WellKeyed(Replaced(t, id, title, content))
    ensures forall k :: HasId(Replaced(t, id, title, content), k) <==> HasId(t, k)
  {
    var u := Replaced(t, id, title, content);
    forall k
      ensures HasId(u, k) <==> HasId(t, k)
    {
      if HasId(u, k) {
        var i :| 0 <= i < |u| && u[i].id == k;
        assert t[i].id == k;
      }
      if HasId(t, k) {
        var i :| 0 <= i < |t| && t[i].id == k;
        assert u[i].id == k;
      }
    }
  }

  /**
   * With unique keys, an update overwrites the title and content of the
   * one record with key `id` and leaves every other record as it was.
   */
  lemma UpdateOverwritesOnlyMatch(t: seq<MarkdownFile>, id: string, title: string, content: string)
    requires UniqueIds(t)
    ensures forall i :: 0 <= i < |t| ==>
              Replaced(t, id, title, content)[i]
              == if t[i].id == id then MarkdownFile(id, title, content) else t[i]
  {
    if HasId(t, id) {
      var k := FindIndex(t, id).value;
      forall i | 0 <= i < |t| && t[i].id == id
        ensures i == k
      {
      }
    }
  }

  /** After an update of a present key, a lookup of that key sees the new fields and the same key. */
  lemma UpdateVisibleToLookup(t: seq<MarkdownFile>, id: string, title: string, content: string)
    requires HasId(t, id)
    ensures Find(Replaced(t, id, title, content), id) == Some(MarkdownFile(id, title, content))
  {
    var u := Replaced(t, id, title, content);
    LookupComparesOnlyKeys(t, u, id);
  }

  /**
   * With unique keys, a delete removes exactly the record with key `id`:
   * every other record stays, keys stay unique, and the key is gone.
   */
  lemma RemovedExactlyOne(t: seq<MarkdownFile>, id: string)
    requires WellKeyed(t)
    ensures forall m :: m in Removed(t, id) <==> m in t && m.id != id
    ensures WellKeyed(Removed(t, id))
    ensures !HasId(Removed(t, id), id)
  {
    match FindIndex(t, id)
    case None =>
    case Some(k) =>
      RemoveAtShifts(t, k);
      RemoveAtKeepsKeysUnique(t, k);
      RemoveAtMembers(t, k);
  }

  /** The position in a table of position `i` of the same table with position `k` taken out. */
  function Skip(i: nat, k: nat): (j: nat)
    ensures j != k && (j < k <==> i < k)
  {
    if i < k then i else i + 1
  }

  /** Taking position `k` out of a table shifts the later records down by one. */
  lemma RemoveAtShifts(t: seq<MarkdownFile>, k: nat)
    requires k < |t|
    ensures |t[..k] + t[k + 1..]| == |t| - 1
    ensures forall i :: 0 <= i < |t| - 1 ==> (t[..k] + t[k + 1..])[i] == t[Skip(i, k)]
  {
  }

  /** Taking a record out of a table with unique keys keeps keys unique and drops its key. */
  lemma RemoveAtKeepsKeysUnique(t: seq<MarkdownFile>, k: nat)
    requires UniqueIds(t) && k < |t|
    ensures UniqueIds(t[..k] + t[k + 1..])
    ensures !HasId(t[..k] + t[k + 1..], t[k].id)
  {
    var u := t[..k] + t[k + 1..];
    RemoveAtShifts(t, k);
    forall i, j | 0 <= i < |u| && 0 <= j < |u| && u[i].id == u[j].id
      ensures i == j
    {
      assert t[Skip(i, k)].id == t[Skip(j, k)].id;
    }
    forall i | 0 <= i < |u|
      ensures u[i].id != t[k].id
    {
      assert u[i] == t[Skip(i, k)];
    }
  }

  /** With unique keys, the records left after taking out position `k` are those with another key. */
  lemma RemoveAtMembers(t: seq<MarkdownFile>, k: nat)
    requires UniqueIds(t) && k < |t|
    ensures forall m :: m in t[..k] + t[k + 1..] <==> m in t && m.id != t[k].id
  {
    var u := t[..k] + t[k + 1..];
    RemoveAtShifts(t, k);
    forall m
      ensures m in u <==> m in t && m.id != t[k].id
    {
      if m in u {
        var i :| 0 <= i < |u| && u[i] == m;
        assert t[Skip(i, k)] == m;
      }
      if m in t && m.id != t[k].id {
        var i :| 0 <= i < |t| && t[i] == m;
        assert m == u[if i < k then i else i - 1];
      }
    }
  }

  /*** Properties of the searches ***/

  /**
   * A title search returns exactly the title matches among the results of
   * the title-or-content search, in the same order.
   */
  lemma {:induction false} TitleSearchWithinPrefixSearch(t: seq<MarkdownFile>, text: string)
    ensures Filter(Filter(t, text, TitleOrContent), text, TitleOnly) == Filter(t, text, TitleOnly)
  {
    if t != [] {
      TitleSearchWithinPrefixSearch(t[1..], text);
      var rest := Filter(t[1..], text, TitleOrContent);
      if Matches(t[0], text, TitleOrContent) {
        assert ([t[0]] + rest)[1..] == rest;
      }
    }
  }

  /** Search texts that differ only in the case of ASCII letters give the same results. */
  lemma {:induction false} SearchIgnoresCase(t: seq<MarkdownFile>, a: string, b: string, scope: SearchScope)
    requires Lower(a) == Lower(b)
    ensures Filter(t, a, scope) == Filter(t, b, scope)
  {
    if t != [] {
      SearchIgnoresCase(t[1..], a, b, scope);
    }
  }

  /** The empty search text matches every record: the whole table comes back. */
  lemma {:induction false} EmptySearchReturnsAll(t: seq<MarkdownFile>, scope: SearchScope)
    ensures Filter(t, "", scope) == t
  {
    if t != [] {
      EmptySearchReturnsAll(t[1..], scope);
      ContainsEmpty(Lower(t[0].title));
      assert Lower("") == "";
      assert Matches(t[0], "", scope);
      assert [t[0]] + t[1..] == t;
    }
  }

  /*** A session through the service ***/

  /** The two searches of the session below find the record they look for. */
  lemma {:induction false} SessionSearchesMatch(mark: MarkdownFile)
    requires mark.title == "Intro" && mark.content == "hello world"
    ensures Filter([mark], "intro", TitleOnly) == [mark]
    ensures Filter([mark], "world", TitleOrContent) == [mark]
  {
    assert Lower("Intro") == Lower("intro");
    assert OccursAt(Lower(mark.title), Lower("intro"), 0);
    assert Lower("hello world")[6..11] == Lower("world");
    assert OccursAt(Lower(mark.content), Lower("world"), 6);
    assert [mark][1..] == [];
  }

  /** Create a record in an empty collection: success, and the collection holds it. */
  method ExampleCreate(generated: ObjectIdString, spare: ObjectIdString)
  {
    var service := new MarkService([]);
    var mark := NewMarkdownFile(generated, "Intro", "hello world");
    assert WithId(mark, StoredId(mark.id, spare)) == mark;
    var created := service.CreateAsync(mark, spare, None);
    assert created == Success(true) && service.table == [mark];
  }

  /** Create a record whose id is empty: it is stored under the generator's fresh id. */
  method ExampleCreateWithEmptyId(generated: ObjectIdString)
  {
    var service := new MarkService([]);
    var created := service.CreateAsync(MarkdownFile("", "t", "c"), generated, None);
    assert created == Success(true) && service.table == [MarkdownFile(generated, "t", "c")];
  }

  /** Find a stored record by a differently-cased title word and by a word of its content. */
  method ExampleSearch(generated: ObjectIdString)
  {
    var mark := NewMarkdownFile(generated, "Intro", "hello world");
    var service := new MarkService([mark]);
    SessionSearchesMatch(mark);
    var byTitle := service.GetByTitleAsync("intro", None);
    assert byTitle == Success([mark]);
    var byContent := service.GetByPrefixAsync("world", None);
    assert byContent == Success([mark]);
  }

  /** Update a stored record, then look it up: same key, new title and content. */
  method ExampleUpdateAndLookup(generated: ObjectIdString)
  {
    var mark := NewMarkdownFile(generated, "Intro", "hello world");
    var service := new MarkService([mark]);
    assert service.table[0].id == CanonicalId(mark.id);
    var updated := service.UpdateAsync(mark.id, MarkdownFile("", "Intro2", "hi"), None);
    assert updated == Success(UpdateResult(1));
    var found := service.GetByIdAsync(mark.id, None);
    assert found == Success(Some(MarkdownFile(generated, "Intro2", "hi")));
  }

  /** Updating a well-formed key that no record has is refused with the not-found failure. */
  method ExampleUpdateOfMissingKey(generated: ObjectIdString, absent: ObjectIdString)
    requires absent != generated
  {
    var mark := NewMarkdownFile(generated, "Intro", "hello world");
    var service := new MarkService([mark]);
    assert !HasId(service.table, CanonicalId(absent));
    var missing := service.UpdateAsync(absent, MarkdownFile("", "x", "y"), None);
    assert missing == ToErroOrFailure(NotFoundFault, UpdateCode) && service.table == [mark];
  }

  /** A key that is not 24 hexadecimal digits fails in the lookup's filter, before any match. */
  method ExampleMalformedKey(generated: ObjectIdString)
  {
    var mark := NewMarkdownFile(generated, "Intro", "hello world");
    var service := new MarkService([mark]);
    assert !ParsesAsObjectId("nonexistent-id");
    var found := service.GetByIdAsync("nonexistent-id", None);
    assert found == ToErroOrFailure(IdFormatFault("nonexistent-id"), GetByIdCode);
  }
}
