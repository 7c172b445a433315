/** The inputs-only copy of a workbook: which cells may keep a value, how each cell is rewritten, and
    the independent check of the result. */
module MaskModel {
  import opened Options

  /** Sheet, row and column. */
  type Place = (string, int, int)

  datatype Value = Number(n: real) | Text(s: string) | Logical(b: bool) | Date(serial: real)

  /** A cell without a value element is bare: it carries nothing but formatting. */
  datatype Content = Bare | Marked(value: Option<Value>)

  /** A formula's stored result: none, white space that is not text, or a value. */
  datatype Cached = Uncached | Spaces | Result(value: Value)

  datatype Cell = Typed(content: Content) | Formula(text: string, cached: Cached)

  datatype CellAt = CellAt(place: Place, cell: Cell, format: string)

  type Book = seq<CellAt>

  ghost predicate PlacesDistinct(book: Book) { forall i, j :: 0 <= i < j < |book| ==> book[i].place != book[j].place }

  /** The value a reader sees; a formula shows its stored result, and empty text shows as nothing. */
  function Reads(c: Cell): (r: Option<Value>) {
    match c
    case Typed(Bare) => None
    case Typed(Marked(v)) => v
    case Formula(_, Result(v)) => if v == Text("") then None else Some(v)
    case Formula(_, _) => None
  }

  function Lookup(book: Book, p: Place): (r: Option<Value>) {
    if book == [] then None else if book[0].place == p then Reads(book[0].cell) else Lookup(book[1..], p)
  }

  lemma {:induction false} LookupAt(book: Book, i: nat)
    requires PlacesDistinct(book) && i < |book|
    ensures Lookup(book, book[i].place) == Reads(book[i].cell)
  {
    if i > 0 {
      assert book[0].place != book[i].place;
      LookupAt(book[1..], i - 1);
    }
  }

  function FormulaPlaces(book: Book): (r: set<Place>) {
    set i | 0 <= i < |book| && book[i].cell.Formula? :: book[i].place
  }

  /** A run of cells of one row, with the role the segmentation gave it. */
  datatype Band = Band(sheet: string, row: int, colLo: int, colHi: int, bucket: string, kind: string, vtype: string)

  function Span(b: Band): (r: set<Place>) { set c | b.colLo <= c <= b.colHi :: (b.sheet, b.row, c) }

  predicate Occurs(t: string, s: string) { |t| <= |s| && (s[..|t|] == t || (s != "" && Occurs(t, s[1..]))) }
}
