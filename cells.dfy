/** The cell types of SQLiteCommon.hpp: `column`, its subclass `blob`, and the
    `row` and `records` vectors built from them. */
module Cells {
  import opened Wrappers
  import opened Decimal

  /** One more than the largest `std::size_t`. */
  const SIZE_BOUND: int := 0x1_0000_0000_0000_0000

  /** `std::size_t` and `records::size_type`. */
  type Size = n: int | 0 <= n < SIZE_BOUND

  const INT_BOUND: int := 0x8000_0000

  /** `static_cast<int>` of an unsigned value: keep the low 32 bits, read them as
      two's complement. */
  function ToInt32(n: nat): (r: int)
    ensures -INT_BOUND <= r < INT_BOUND
    ensures (r - n) % (2 * INT_BOUND) == 0
    ensures n < INT_BOUND ==> r == n
  {
    var low := n % (2 * INT_BOUND);
    if low < INT_BOUND then low else low - 2 * INT_BOUND
  }

  /** `std::string(p)` or `s = p` for a C string `p`: the characters before
      the first NUL, all of them when there is none. */
  function CString(s: string): (r: string)
    ensures |r| <= |s| && r == s[..|r|]
    ensures '\0' !in r
    ensures |r| < |s| ==> s[|r|] == '\0'
    ensures '\0' !in s ==> r == s
  {
    if s == [] || s[0] == '\0' then [] else [s[0]] + CString(s[1..])
  }

  /** A cell. `blobBuf` is the address of caller-owned memory, 0 for the null
      pointer; the cell neither owns nor copies that memory. */
  datatype Column = Column(data: string, isNull: bool, blobBuf: nat, blobLen: Size)

  type Row = seq<Column>

  type Records = seq<Row>

  /** `column()`: a NULL cell with no blob. */
  function NullColumn(): (c: Column)
    ensures c.isNull && c.blobBuf == 0 && c.blobLen == 0 && c.data == ""
  {
    Column("", true, 0, 0)
  }

  /** `column(std::string v)`: a non-NULL text cell holding exactly `v`. */
  function TextColumn(v: string): (c: Column)
    ensures !c.isNull && c.blobBuf == 0 && c.blobLen == 0 && c.data == v
  {
    Column(v, false, 0, 0)
  }

  /** `column(T v)` for an integral `T` other than the character types (which
      `lexical_cast` renders as one character): the number is rendered in
      decimal, so the text reads back as the same number. */
  function IntColumn(v: int): (c: Column)
    ensures !c.isNull && c.blobBuf == 0 && c.blobLen == 0
    ensures Parse(c.data) == Some(v)
  {
    ParseRender(v);
    Column(Render(v), false, 0, 0)
  }

  /** `blob(buffer, size)`: built on `column()`, so the cell stays NULL while it
      carries the buffer reference. */
  function Blob(buffer: nat, size: Size): (c: Column)
    ensures c.blobBuf == buffer && c.blobLen == size
    ensures c.isNull && c.data == ""
  {
    NullColumn().(blobBuf := buffer, blobLen := size)
  }

  /** The native bind call a cell turns into when `insert` binds it. */
  datatype Binding = BindNull | BindBlob(buffer: nat, length: int) | BindText(text: string, length: int)

  /** The dispatch of `insert`: NULL is tested first, then a non-zero blob pointer,
      and everything else is bound as its text. The blob length and the text
      length both go through an `int` cast. */
  function BindingOf(c: Column): (b: Binding)
    ensures b.BindNull? <==> c.isNull
    ensures b.BindBlob? <==> !c.isNull && c.blobBuf != 0
    ensures b.BindText? <==> !c.isNull && c.blobBuf == 0
    ensures b.BindBlob? ==> b.buffer == c.blobBuf && b.length == ToInt32(c.blobLen)
    ensures b.BindText? ==> b.text == c.data && b.length == ToInt32(|c.data|)
  {
    if c.isNull then BindNull
    else if c.blobBuf != 0 then BindBlob(c.blobBuf, ToInt32(c.blobLen))
    else BindText(c.data, ToInt32(|c.data|))
  }

  /** Every cell made by `blob(...)` is bound with `bind_null`: the blob branch of
      `insert` is unreachable for it. */
  lemma BlobBindsNull(buffer: nat, size: Size)
    ensures BindingOf(Blob(buffer, size)) == BindNull
  {
  }

  /** The blob branch is taken exactly by the non-NULL cells whose pointer is set;
      none of the constructors of the source builds such a cell. */
  lemma ConstructorsNeverBindBlob(v: string, n: int, buffer: nat, size: Size)
    ensures !BindingOf(NullColumn()).BindBlob?
    ensures BindingOf(TextColumn(v)) == BindText(v, ToInt32(|v|))
    ensures BindingOf(IntColumn(n)).BindText?
    ensures !BindingOf(Blob(buffer, size)).BindBlob?
  {
  }
}
