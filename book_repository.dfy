/**
 * `BookRepository`: the relational `books` table as a map from generated id to row,
 * plus the search-statement list `search` builds for the JPA criteria query.
 */
module Repository {

  import opened Wrappers
  import opened JavaText
  import opened Model
  import opened Table

  /** The entity attributes a statement can constrain (`Consts`). */
  datatype Key = TITLE | AUTHOR | EDITORIAL | VISIBLE

  datatype SearchOperation = MATCH | EQUAL

  datatype StatementValue = Text(text: string) | Flag(flag: bool)

  /** One filter of the criteria query (`SearchStatement`). */
  datatype SearchStatement = SearchStatement(key: Key, value: StatementValue, operation: SearchOperation)

  /** The order in which `search` adds statements. */
  function Rank(k: Key): nat {
    match k
    case TITLE => 0
    case AUTHOR => 1
    case EDITORIAL => 2
    case VISIBLE => 3
  }

  /**
   * The statements `search` adds: title MATCH iff the name is not blank, author EQUAL iff
   * the author is not blank, editorial MATCH iff the editorial is not blank, visible
   * EQUAL iff a visibility is given; in that order, each at most once.
   */
  function Statements(name: JString, author: JString, editorial: JString, visible: Option<bool>): (r: seq<SearchStatement>)
    ensures IsNotBlank(name) <==> name.Some? && SearchStatement(TITLE, Text(name.value), MATCH) in r
    ensures IsNotBlank(author) <==> author.Some? && SearchStatement(AUTHOR, Text(author.value), EQUAL) in r
    ensures IsNotBlank(editorial) <==> editorial.Some? && SearchStatement(EDITORIAL, Text(editorial.value), MATCH) in r
    ensures visible.Some? <==> visible.Some? && SearchStatement(VISIBLE, Flag(visible.value), EQUAL) in r
    ensures |r| == (if IsNotBlank(name) then 1 else 0) + (if IsNotBlank(author) then 1 else 0)
                 + (if IsNotBlank(editorial) then 1 else 0) + (if visible.Some? then 1 else 0)
  {
    (if IsNotBlank(name) then [SearchStatement(TITLE, Text(name.value), MATCH)] else [])
    + (if IsNotBlank(author) then [SearchStatement(AUTHOR, Text(author.value), EQUAL)] else [])
    + (if IsNotBlank(editorial) then [SearchStatement(EDITORIAL, Text(editorial.value), MATCH)] else [])
    + (if visible.Some? then [SearchStatement(VISIBLE, Flag(visible.value), EQUAL)] else [])
  }

  /** Statements appear in the order title, author, editorial, visible. */
  lemma StatementsInOrder(name: JString, author: JString, editorial: JString, visible: Option<bool>)
    ensures var r := Statements(name, author, editorial, visible);
            forall i, j :: 0 <= i < j < |r| ==> Rank(r[i].key) < Rank(r[j].key)
  {
  }

  /** Where `save` puts a row: under its own id when the table has it, else under the next id. */
  function StoreKey(rows: map<int, BookRow>, nextId: int, id: Option<int>): int {
    if id.Some? && id.value in rows then id.value else nextId
  }

  class BookRepository {
    /** The rows of the table, by id. */
    var rows: map<int, BookRow>
    /** The next identity value the table hands out. */
    var nextId: int
    /** Every row passed to `save`, oldest first. */
    ghost var saveLog: seq<BookRow>
    /** Every row passed to `delete`, oldest first. */
    ghost var deleteLog: seq<BookRow>
    /** The criteria evaluation of `findAll(spec)`: whether a row satisfies all statements. */
    const matches: (seq<SearchStatement>, BookRow) -> bool

    /** Every row carries the id it is stored under, and ids below `nextId` only. */
    ghost predicate Valid()
      reads this
    {
      forall id :: id in rows ==> rows[id].id == Some(id) && id < nextId
    }

    constructor (matches: (seq<SearchStatement>, BookRow) -> bool)
      ensures Valid() && rows == map[] && nextId == 1
      ensures saveLog == [] && deleteLog == [] && this.matches == matches
    {
      rows := map[];
      nextId := 1;
      saveLog, deleteLog := [], [];
      this.matches := matches;
    }

    /** `getBooks`: every row, by ascending id. */
    method GetBooks() returns (books: seq<BookRow>)
      ensures books == Listing(rows)
    {
      books := Listing(rows);
    }

    /** `getById`: a fresh entity loaded from the row with that id, or null. */
    method GetById(id: int) returns (book: Book?)
      ensures book == null <==> id !in rows
      ensures book != null ==> fresh(book) && book.Row() == rows[id]
    {
      if id in rows {
        book := new Book.FromRow(rows[id]);
      } else {
        book := null;
      }
    }

    /**
     * `save`: an entity without an id is inserted under the next identity value, which
     * is written into it; an entity whose id the table has overwrites that row; an entity
     * whose id the table does not have is inserted as a new row under the next identity
     * value, and the copy carrying that id is returned while the argument keeps its id.
     */
    method Save(book: Book) returns (saved: Book)
      requires Valid()
      modifies this, book
      ensures Valid()
      ensures var k := StoreKey(old(rows), old(nextId), old(book.id));
              && saved.Row() == old(book.Row()).(id := Some(k))
              && rows == old(rows)[k := saved.Row()]
              && nextId == (if k == old(nextId) then old(nextId) + 1 else old(nextId))
      ensures old(book.id).None? ==> saved == book
      ensures old(book.id).Some? ==> book.Row() == old(book.Row())
      ensures old(book.id).Some? && old(book.id).value in old(rows) ==> saved == book
      ensures old(book.id).Some? && old(book.id).value !in old(rows) ==> fresh(saved)
      ensures saveLog == old(saveLog) + [old(book.Row())] && deleteLog == old(deleteLog)
    {
      saveLog := saveLog + [book.Row()];
      if book.id.None? {
        book.id := Some(nextId);
        nextId := nextId + 1;
        saved := book;
      } else if book.id.value !in rows {
        saved := new Book.FromRow(book.Row().(id := Some(nextId)));
        nextId := nextId + 1;
      } else {
        saved := book;
      }
      rows := rows[saved.id.value := saved.Row()];
    }

    /** `delete`: removes the row with the entity's id, if it has one. */
    method Delete(book: Book)
      modifies this
      ensures rows == if book.id.Some? then old(rows) - {book.id.value} else old(rows)
      ensures nextId == old(nextId)
      ensures deleteLog == old(deleteLog) + [book.Row()] && saveLog == old(saveLog)
    {
      if book.id.Some? {
        rows := rows - {book.id.value};
      }
      deleteLog := deleteLog + [book.Row()];
    }

    /**
     * `search`: builds the statement list and returns the rows the criteria query
     * accepts, by ascending id.
     */
    method Search(name: JString, author: JString, editorial: JString, visible: Option<bool>)
      returns (books: seq<BookRow>)
      ensures books == Select(Listing(rows), matches, Statements(name, author, editorial, visible))
    {
      var spec := BuildStatements(name, author, editorial, visible);
      books := Select(Listing(rows), matches, spec);
    }

    /** The `SearchCriteria` of `search`, one `add` at a time. */
    static method BuildStatements(name: JString, author: JString, editorial: JString, visible: Option<bool>)
      returns (spec: seq<SearchStatement>)
      ensures spec == Statements(name, author, editorial, visible)
    {
      spec := [];
      if IsNotBlank(name) {
        spec := spec + [SearchStatement(TITLE, Text(name.value), MATCH)];
      }
      if IsNotBlank(author) {
        spec := spec + [SearchStatement(AUTHOR, Text(author.value), EQUAL)];
      }
      if IsNotBlank(editorial) {
        spec := spec + [SearchStatement(EDITORIAL, Text(editorial.value), MATCH)];
      }
      if visible.Some? {
        spec := spec + [SearchStatement(VISIBLE, Flag(visible.value), EQUAL)];
      }
      assert spec ==
        (if IsNotBlank(name) then [SearchStatement(TITLE, Text(name.value), MATCH)] else [])
        + (if IsNotBlank(author) then [SearchStatement(AUTHOR, Text(author.value), EQUAL)] else [])
        + (if IsNotBlank(editorial) then [SearchStatement(EDITORIAL, Text(editorial.value), MATCH)] else [])
        + (if visible.Some? then [SearchStatement(VISIBLE, Flag(visible.value), EQUAL)] else []);
    }
  }
}
