/**
 * The parsing context of the lexer: a text buffer, a read position and the
 * row/column counters used in error reports.
 *
 * Each `char` of `text` stands for one byte of the C++ `std::string`.
 * Positions are unbounded integers; the contracts below show that the uses
 * the lexer makes of `Next` never drive the position below zero, so the
 * `size_t` wrap-around of the original never happens.
 */
module ParsingContext {

  datatype Context = Context(text: string, pos: int, row: int, column: int) {

    /** `Peek` reads an in-bounds byte exactly when this holds. */
    predicate Valid() {
      |text| > 0 && 0 <= pos < |text|
    }
  }

  /** The context the lexer builds for a non-empty buffer. */
  function Start(text: string): (c: Context)
    requires |text| > 0
    ensures c.Valid() && c.pos == 0
    ensures c.text == text && c.row == 0 && c.column == 0
  {
    Context(text, 0, 0, 0)
  }

  /** The byte under the read position. */
  function Peek(c: Context): char
    requires c.Valid()
  {
    c.text[c.pos]
  }

  /** The context `k` bytes further on, on the same row: position and column move together. */
  function Ahead(c: Context, k: nat): (d: Context)
    ensures d.text == c.text && d.row == c.row
    ensures d.pos == c.pos + k && d.column == c.column + k
  {
    c.(pos := c.pos + k, column := c.column + k)
  }

  /**
   * Moves by `movement` (1 or -1 in the lexer) only while the position is
   * below the last index; the flag tells whether the move happened.
   */
  function Next(c: Context, movement: int): (r: (bool, Context))
    ensures r.0 <==> c.pos < |c.text| - 1
    ensures r.1.text == c.text && r.1.row == c.row
    ensures r.0 ==> r.1.pos == c.pos + movement && r.1.column == c.column + movement
    ensures !r.0 ==> r.1 == c
    ensures c.Valid() && movement <= 1 && c.pos + movement >= 0 ==> r.1.Valid()
  {
    if c.pos < |c.text| - 1 then
      (true, c.(pos := c.pos + movement, column := c.column + movement))
    else
      (false, c)
  }

  /**
   * `peek` after `next()`: the following byte when the cursor could move,
   * and the same byte again on the last byte of the buffer.
   */
  lemma PeekNext(c: Context)
    requires c.Valid()
    ensures Next(c, 1).1.Valid()
    ensures c.pos < |c.text| - 1 ==> Peek(Next(c, 1).1) == c.text[c.pos + 1]
    ensures c.pos == |c.text| - 1 ==> Peek(Next(c, 1).1) == Peek(c)
  {
  }

  /** Starts a new line: the row grows by one and the column restarts at 0. */
  function NextRow(c: Context): (r: Context)
    ensures r.text == c.text && r.pos == c.pos
    ensures r.row == c.row + 1 && r.column == 0
  {
    c.(row := c.row + 1, column := 0)
  }
}
