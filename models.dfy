/** The stored document record and the textual form of its key. */
module Models {
  import opened Strings

  /** A lower-case hexadecimal digit. */
  predicate IsHexDigit(c: char)
  {
    '0' <= c <= '9' || 'a' <= c <= 'f'
  }

  /** A hexadecimal digit of either case. */
  predicate IsAnyCaseHexDigit(c: char)
  {
    IsHexDigit(c) || 'A' <= c <= 'F'
  }

  /**
   * The canonical text of an identifier: 24 lower-case hexadecimal digits,
   * as the id generator writes it and as a stored key reads back.
   */
  predicate IsObjectIdString(s: string)
  {
    |s| == 24 && forall i :: 0 <= i < |s| ==> IsHexDigit(s[i])
  }

  /**
   * Text the key's serializer accepts (the key is stored as an ObjectId,
   * not as a string): 24 hexadecimal digits of either case.
   */
  predicate ParsesAsObjectId(s: string)
  {
    |s| == 24 && forall i :: 0 <= i < |s| ==> IsAnyCaseHexDigit(s[i])
  }

  /**
   * The key a string id denotes once serialized and read back: its digits
   * in lower case. A parseable id becomes canonical; a canonical one is kept.
   */
  function CanonicalId(s: string): (c: string)
    ensures ParsesAsObjectId(s) ==> IsObjectIdString(c)
    ensures IsObjectIdString(s) ==> c == s
  {
    Lower(s)
  }

  /** An identifier as the id generator produces it. */
  type ObjectIdString = s: string | IsObjectIdString(s) witness "000000000000000000000000"

  /**
   * The key an inserted record is stored under. The key's id generator
   * counts an empty id as unset and fills in a fresh one (`generated`);
   * any other id is serialized, so it must parse and is kept in canonical form.
   */
  function StoredId(id: string, generated: ObjectIdString): (k: string)
    requires id == "" || ParsesAsObjectId(id)
    ensures IsObjectIdString(k)
    ensures id == "" ==> k == generated
    ensures id != "" ==> k == CanonicalId(id)
  {
    if id == "" then generated else CanonicalId(id)
  }

  /**
   * A markdown document. `id` is the document key, the only field the
   * service's lookup, update and delete filters compare; `title` and
   * `content` are free text with no default and no validation.
   */
  datatype MarkdownFile = MarkdownFile(id: string, title: string, content: string)

  /**
   * A freshly constructed record: its id comes from the id generator, which
   * is an input here (`generated`), with no say from the caller.
   */
  function NewMarkdownFile(generated: ObjectIdString, title: string, content: string): (m: MarkdownFile)
    ensures m.id == generated && IsObjectIdString(m.id)
    ensures m.title == title && m.content == content
  {
    MarkdownFile(generated, title, content)
  }

  /** Setting `Id`: a caller-supplied id replaces the generated one, nothing else changes. */
  function WithId(m: MarkdownFile, id: string): (r: MarkdownFile)
    ensures r.id == id
    ensures r.title == m.title && r.content == m.content
  {
    m.(id := id)
  }
}
