/**
 * The entry construction of `ExportService.to_bibtex` in
 * backend/services/export.py: one field map per article, with a positional
 * ID, defaults for a missing author, and every empty field removed.
 * Writing the entries out as BibTeX text is left to the bibtexparser library
 * and is not part of this model.
 */
module Export {
  import opened Wrappers
  import opened Text
  import opened Models

  /** The fields `to_bibtex` fills in. */
  datatype Field = EntryType | Id | Title | Author | Year | Journal | Publisher | Url | Abstract

  /** The key each field is stored under in the entry dictionary. */
  function FieldName(f: Field): string
  {
    match f
    case EntryType => "ENTRYTYPE"
    case Id => "ID"
    case Title => "title"
    case Author => "author"
    case Year => "year"
    case Journal => "journal"
    case Publisher => "publisher"
    case Url => "url"
    case Abstract => "abstract"
  }

  /** Different fields are stored under different keys. */
  lemma FieldNamesDistinct(f: Field, g: Field)
    requires f != g
    ensures FieldName(f) != FieldName(g)
  {
  }

  /** A BibTeX entry: field to field value. */
  type Entry = map<Field, string>

  /** Python's `x or ''` for an optional string: the text, or "" when absent. */
  function OrEmpty(o: Option<string>): string
  {
    match o case Some(t) => t case None => ""
  }

  /** Every field of an entry. */
  const AllFields: set<Field> := {EntryType, Id, Title, Author, Year, Journal, Publisher, Url, Abstract}

  /** The value the entry dictionary gives field `f` of the article at position `i`. */
  function RawValue(i: nat, a: Article, f: Field): string
  {
    match f
    case EntryType => "article"
    case Id => "article" + NatToString(i + 1)
    case Title => a.title
    case Author => if OrEmpty(a.authors) == "" then "Unknown" else OrEmpty(a.authors)
    case Year => if a.year.Some? && a.year.value != 0 then IntToString(a.year.value) else ""
    case Journal => OrEmpty(a.venue)
    case Publisher => OrEmpty(a.publisher)
    case Url => OrEmpty(a.url)
    case Abstract => OrEmpty(a.description)
  }

  /** The entry before empty fields are dropped. */
  function RawEntry(i: nat, a: Article): (m: Entry)
    ensures m.Keys == AllFields
  {
    map f | f in AllFields :: RawValue(i, a, f)
  }

  /** The dictionary comprehension that keeps only truthy values. */
  function DropEmpty(m: Entry): (r: Entry)
    ensures r.Keys <= m.Keys
    ensures forall k | k in m :: k in r <==> m[k] != ""
    ensures forall k | k in r :: r[k] == m[k]
  {
    map k | k in m && m[k] != "" :: m[k]
  }

  /** A copied field: present exactly when the source text is non-empty, and then unchanged. */
  predicate Copied(e: Entry, field: Field, source: string)
  {
    (field in e <==> source != "") && (field in e ==> e[field] == source)
  }

  /**
   * The entry for the article at position `i`: type `article`, ID
   * `article{i+1}`, an author that falls back to `Unknown`, the year as
   * decimal text exactly when it is truthy, the other fields copied when
   * non-empty, and no empty value anywhere.
   */
  function BibEntry(i: nat, a: Article): (e: Entry)
    ensures forall k | k in e :: e[k] != ""
    ensures EntryType in e && e[EntryType] == "article"
    ensures Id in e && e[Id] == "article" + NatToString(i + 1)
    ensures Author in e
    ensures a.authors.None? || a.authors.value == "" ==> e[Author] == "Unknown"
    ensures a.authors.Some? && a.authors.value != "" ==> e[Author] == a.authors.value
    ensures Year in e <==> a.year.Some? && a.year.value != 0
    ensures Year in e ==> e[Year] == IntToString(a.year.value)
    ensures Copied(e, Title, a.title)
    ensures Copied(e, Journal, OrEmpty(a.venue))
    ensures Copied(e, Publisher, OrEmpty(a.publisher))
    ensures Copied(e, Url, OrEmpty(a.url))
    ensures Copied(e, Abstract, OrEmpty(a.description))
  {
    DropEmpty(RawEntry(i, a))
  }

  /** Entries at different positions have different IDs. */
  lemma BibIdsDistinct(i: nat, j: nat, a: Article, b: Article)
    requires i != j
    ensures BibEntry(i, a)[Id] != BibEntry(j, b)[Id]
  {
    var x, y := NatToString(i + 1), NatToString(j + 1);
    if "article" + x == "article" + y {
      PrefixCancel("article", x, y);
      NatToStringInjective(i + 1, j + 1);
    }
  }

  lemma PrefixCancel<T>(p: seq<T>, x: seq<T>, y: seq<T>)
    requires p + x == p + y
    ensures x == y
  {
    assert x == (p + x)[|p|..];
    assert y == (p + y)[|p|..];
  }

  /** `entries` holds the entry of each article, at the article's position. */
  predicate EntriesOf(articles: seq<Article>, entries: seq<Entry>)
  {
    |entries| == |articles| && forall i | 0 <= i < |articles| :: entries[i] == BibEntry(i, articles[i])
  }

  lemma EntriesOfAppend(articles: seq<Article>, entries: seq<Entry>, a: Article)
    requires EntriesOf(articles, entries)
    ensures EntriesOf(articles + [a], entries + [BibEntry(|articles|, a)])
  {
    var s, e := articles + [a], entries + [BibEntry(|articles|, a)];
    forall i | 0 <= i < |s| ensures e[i] == BibEntry(i, s[i]) {
      if i < |articles| {
        assert e[i] == entries[i] && s[i] == articles[i];
      }
    }
  }

  lemma EntryIdsDistinct(articles: seq<Article>, entries: seq<Entry>)
    requires EntriesOf(articles, entries)
    ensures forall i, j | 0 <= i < j < |entries| ::
              Id in entries[i] && Id in entries[j] && entries[i][Id] != entries[j][Id]
  {
    forall i, j | 0 <= i < j < |entries|
      ensures Id in entries[i] && Id in entries[j] && entries[i][Id] != entries[j][Id]
    {
      BibIdsDistinct(i, j, articles[i], articles[j]);
    }
  }

  /**
   * `to_bibtex`'s loop over `enumerate(articles)`: one entry per article, in
   * input order, with pairwise distinct IDs.
   */
  method ToBibtex(articles: seq<Article>) returns (entries: seq<Entry>)
    ensures EntriesOf(articles, entries)
    ensures forall i, j | 0 <= i < j < |entries| ::
              Id in entries[i] && Id in entries[j] && entries[i][Id] != entries[j][Id]
  {
    entries := [];
    ghost var done: seq<Article> := [];
    var i := 0;
    while i < |articles|
      invariant 0 <= i <= |articles| && done == articles[..i]
      invariant EntriesOf(done, entries)
    {
      EntriesOfAppend(done, entries, articles[i]);
      entries, done := entries + [BibEntry(i, articles[i])], done + [articles[i]];
      i := i + 1;
      assert done == articles[..i];
    }
    assert done == articles;
    EntryIdsDistinct(articles, entries);
  }
}
