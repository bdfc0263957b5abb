/** The request body the learner sends to the equivalence oracle: the
    observation table flattened into four text fields. Prefix and suffix
    lists are joined with single spaces and the empty word is written as
    the token "e"; the cells are written row after row as '0' and '1'. */
module Serialization {
  import opened ObservationTableObject

  /** The four fields of the request body. */
  datatype TableQuery = TableQuery(mainPrefixes: string, complementaryPrefixes: string, suffixes: string, table: string)

  /** The words joined with single spaces between them. */
  function JoinSpaces(words: seq<string>): (r: string)
    ensures words == [] ==> r == ""
    ensures |words| == 1 ==> r == words[0]
  {
    if words == [] then ""
    else if |words| == 1 then words[0]
    else words[0] + " " + JoinSpaces(words[1..])
  }

  /** The text cut at every space, as splitting on the separator " " does:
      there is always at least one piece, and the empty text gives one
      empty piece. */
  function SplitSpaces(s: string): (r: seq<string>)
    ensures |r| >= 1
  {
    if s == [] then [""]
    else
      var rest := SplitSpaces(s[1..]);
      if s[0] == ' ' then [""] + rest else [[s[0]] + rest[0]] + rest[1..]
  }

  /** A piece without spaces in front of a text becomes part of the text's
      first piece. */
  lemma {:induction false} SplitAfterWord(w: string, s: string)
    requires ' ' !in w
    ensures SplitSpaces(w + s) == [w + SplitSpaces(s)[0]] + SplitSpaces(s)[1..]
  {
    var x := SplitSpaces(s);
    if w == [] {
      assert w + s == s && w + x[0] == x[0];
      assert x == [x[0]] + x[1..];
    } else {
      assert w[0] != ' ' && ' ' !in w[1..];
      SplitAfterWord(w[1..], s);
      assert (w + s)[1..] == w[1..] + s;
      var rest := SplitSpaces((w + s)[1..]);
      assert rest == [w[1..] + x[0]] + x[1..];
      assert rest[0] == w[1..] + x[0] && rest[1..] == x[1..];
      assert [w[0]] + (w[1..] + x[0]) == w + x[0];
    }
  }

  /** Splitting undoes joining when there is at least one word and no word
      holds a space. */
  lemma {:induction false} SplitJoin(words: seq<string>)
    requires |words| >= 1
    requires forall k :: 0 <= k < |words| ==> ' ' !in words[k]
    ensures SplitSpaces(JoinSpaces(words)) == words
  {
    if |words| == 1 {
      SplitAfterWord(words[0], "");
      assert words[0] + "" == words[0];
    } else {
      var rest := JoinSpaces(words[1..]);
      SplitJoin(words[1..]);
      SplitAfterWord(words[0], " " + rest);
      assert (" " + rest)[0] == ' ' && (" " + rest)[1..] == rest;
      var y := SplitSpaces(" " + rest);
      assert y == [""] + SplitSpaces(rest);
      assert y[0] == "" && y[1..] == words[1..];
      assert words[0] + " " + rest == words[0] + (" " + rest);
      assert words[0] + y[0] == words[0];
      assert words == [words[0]] + words[1..];
    }
  }

  /** The empty word written as "e". */
  function Token(w: string): (r: string)
    ensures w == "" ==> r == "e"
    ensures w != "" ==> r == w
  {
    if w == "" then "e" else w
  }

  /** The character a cell is written as. */
  function Digit(b: bool): (c: char)
    ensures c == '0' || c == '1'
    ensures b <==> c == '1'
  {
    if b then '1' else '0'
  }

  /** The cells of one row as digits. */
  function Digits(row: seq<bool>): (r: string)
    ensures |r| == |row|
    ensures forall j :: 0 <= j < |row| ==> r[j] == Digit(row[j])
  {
    seq(|row|, j requires 0 <= j < |row| => Digit(row[j]))
  }

  /** The rows' digits, row after row; the text holds digits only. */
  function Flatten(rows: seq<seq<bool>>): (r: string)
    ensures forall c :: c in r ==> c == '0' || c == '1'
  {
    if rows == [] then ""
    else
      var d := Digits(rows[0]);
      assert forall c :: c in d ==> c == '0' || c == '1';
      d + Flatten(rows[1..])
  }

  /** A text of digits read back as cells: '1' is true, anything else
      false. */
  function ParseDigits(s: string): (row: seq<bool>)
    ensures |row| == |s|
    ensures forall j :: 0 <= j < |s| ==> row[j] == (s[j] == '1')
  {
    seq(|s|, j requires 0 <= j < |s| => s[j] == '1')
  }

  /** A text of digits cut into rows of w cells; a shorter tail is dropped. */
  function ParseTable(s: string, w: nat): seq<seq<bool>>
    requires w > 0
    decreases |s|
  {
    if |s| < w then [] else [ParseDigits(s[..w])] + ParseTable(s[w..], w)
  }

  /** Rows of width w flatten to |rows| * w digits, which read back as the
      same rows. */
  lemma {:induction false} FlattenReadBack(rows: seq<seq<bool>>, w: nat)
    requires w > 0
    requires forall k :: 0 <= k < |rows| ==> |rows[k]| == w
    ensures |Flatten(rows)| == |rows| * w
    ensures ParseTable(Flatten(rows), w) == rows
  {
    if rows != [] {
      var rest := rows[1..];
      FlattenReadBack(rest, w);
      var d, f := Digits(rows[0]), Flatten(rows);
      assert f == d + Flatten(rest);
      assert |rows| * w == w + |rest| * w;
      assert f[..w] == d && f[w..] == Flatten(rest);
      assert ParseDigits(d) == rows[0];
      assert rows == [rows[0]] + rest;
    }
  }

  /** The request body for the table: the main prefixes, the pending
      prefixes, the suffixes, and every cell. */
  function SerializeTableToJson(table: ObservationTable): (q: TableQuery)
    reads table
    requires table.Valid()
    ensures |q.table| == |table.S| * |table.E|
    ensures forall c :: c in q.table ==> c == '0' || c == '1'
    ensures ParseTable(q.table, |table.E|) == table.T
  {
    FlattenReadBack(table.T, |table.E|);
    TableQuery(
      JoinSpaces(["e"] + table.S[1..table.mainEnd]),
      JoinSpaces(table.S[table.mainEnd..]),
      JoinSpaces(["e"] + table.E[1..]),
      Flatten(table.T))
  }

  /** Reading the request back: when no prefix or suffix holds a space,
      splitting the text fields gives the main prefixes and the suffixes
      with the empty word as "e", and the pending prefixes, of which an
      empty list reads back as one empty word. */
  lemma SerializedFieldsReadBack(table: ObservationTable)
    requires table.Valid()
    requires forall k :: 0 <= k < |table.S| ==> ' ' !in table.S[k]
    requires forall j :: 0 <= j < |table.E| ==> ' ' !in table.E[j]
    ensures SplitSpaces(SerializeTableToJson(table).mainPrefixes) == Tokens(table.S[..table.mainEnd])
    ensures SplitSpaces(SerializeTableToJson(table).suffixes) == Tokens(table.E)
    ensures table.mainEnd < |table.S| ==> SplitSpaces(SerializeTableToJson(table).complementaryPrefixes) == table.S[table.mainEnd..]
    ensures table.mainEnd == |table.S| ==> SerializeTableToJson(table).complementaryPrefixes == ""
    ensures table.mainEnd == |table.S| ==> SplitSpaces(SerializeTableToJson(table).complementaryPrefixes) == [""]
  {
    var S, E, m := table.S, table.E, table.mainEnd;
    assert ["e"] + S[1..m] == Tokens(S[..m]);
    assert ["e"] + E[1..] == Tokens(E);
    SplitJoin(["e"] + S[1..m]);
    SplitJoin(["e"] + E[1..]);
    if m < |S| {
      SplitJoin(S[m..]);
    }
  }

  /** The list with the leading empty word written as "e". */
  function Tokens(words: seq<string>): (r: seq<string>)
    ensures |r| == |words|
    ensures forall k :: 0 <= k < |words| ==> r[k] == (if k == 0 then Token(words[0]) else words[k])
  {
    if words == [] then [] else [Token(words[0])] + words[1..]
  }
}
