/**
  The values a board cell can hold. The source keeps both the hidden field
  and the scouted overlay as grids of one-character strings; `Cell` names
  those strings, and `Token` / `ParseToken` translate between the two.
 */
module Cells {
  import opened Outcomes

  /** A cell has at most eight neighbours, so at most eight of them are mines. */
  type MineCount = n: int | 0 <= n <= 8

  datatype Cell =
    | Blank               // " " : not scouted yet, or not counted yet while the field is built
    | Mine                // "M"
    | Count(n: MineCount) // "0" .. "8" : a safe cell and the number of mines around it
    | XMark               // "X" : a mine shown after the game was lost

  /** The string the source stores for a cell. */
  function Token(c: Cell): (s: string)
    ensures |s| == 1
  {
    match c
    case Blank => " "
    case Mine => "M"
    case Count(n) => [('0' as int + n) as char]
    case XMark => "X"
  }

  /** Reads back a stored string; `None` for anything no cell is written as. */
  function ParseToken(s: string): Option<Cell> {
    if |s| != 1 then None
    else if s[0] == ' ' then Some(Blank)
    else if s[0] == 'M' then Some(Mine)
    else if s[0] == 'X' then Some(XMark)
    else if '0' <= s[0] <= '8' then Some(Count(s[0] as int - '0' as int))
    else None
  }

  /** Every cell is stored as a string that reads back as that cell. */
  lemma TokenRoundTrip(c: Cell)
    ensures ParseToken(Token(c)) == Some(c)
  {
    match c
    case Count(n) =>
      var s := Token(c);
      assert s[0] as int == '0' as int + n;
    case _ =>
  }

  /** Every string that reads as a cell is exactly that cell's stored form. */
  lemma ParseTokenRoundTrip(s: string)
    ensures ParseToken(s).Some? ==> Token(ParseToken(s).value) == s
  {
    if ParseToken(s).Some? && ParseToken(s).value.Count? {
      assert Token(ParseToken(s).value) == [s[0]];
    }
  }
}
