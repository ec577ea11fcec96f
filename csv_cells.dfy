/**
 * One line of CSV as a reader that honours double quotes splits it into cells, and the quoting
 * that lets a value hold a comma. The CSV parser the import uses is not part of this model;
 * `Cells` stands in for it on the one-line templates of
 * src/components/organisms/ImportExportModal.jsx.
 */
module CsvCells {

  import opened Js

  /**
   * The cells of one CSV line as a reader that honours double quotes splits them: a cell that
   * opens with a quote runs to the next quote, any other cell to the next comma. Cells with an
   * embedded quote are beyond this reader; the template has none.
   */
  function Cells(s: string): (r: seq<string>)
    ensures |r| >= 1
    decreases |s|
  {
    if s != [] && s[0] == '"' then
      match IndexOfChar(s[1..], '"')
      case None => [s[1..]]
      case Some(j) =>
        var rest := s[j + 2..];
        if rest != [] && rest[0] == ',' then [s[1..j + 1]] + Cells(rest[1..]) else [s[1..j + 1]]
    else
      match IndexOfChar(s, ',')
      case None => [s]
      case Some(i) => [s[..i]] + Cells(s[i + 1..])
  }

  /** Without quotes the reader splits at every comma. */
  lemma {:induction false} CellsWithoutQuotes(s: string)
    requires '"' !in s
    ensures Cells(s) == Split(s, ',')
    decreases |s|
  {
    match IndexOfChar(s, ',')
    case None =>
    case Some(i) =>
      var t := s[i + 1..];
      assert '"' !in t by {
        forall k | 0 <= k < |t| ensures t[k] != '"' {
          assert t[k] == s[i + 1 + k];
        }
      }
      CellsWithoutQuotes(s[i + 1..]);
  }

  /** Holds no double quote. */
  predicate Unquoted(s: string)
  {
    forall i :: 0 <= i < |s| ==> s[i] != '"'
  }

  /** Holds neither a double quote nor a comma: a cell that needs no quoting. */
  predicate Plain(s: string)
  {
    forall i :: 0 <= i < |s| ==> s[i] != '"' && s[i] != ','
  }

  /** Joined by commas, texts without quotes or commas read back unchanged. */
  lemma PlainCellsReadBack(xs: seq<string>)
    requires xs != []
    requires forall x :: x in xs ==> Plain(x)
    ensures Cells(Join(xs, ",")) == xs
  {
    forall k | 0 <= k < |xs| ensures '"' !in xs[k] && ',' !in xs[k] {
      assert xs[k] in xs;
    }
    JoinAvoids(xs, ",", '"');
    CellsWithoutQuotes(Join(xs, ","));
    SplitJoin(xs, ',');
  }

  /**
   * A value written without quotes whose text is several comma-separated pieces reads back as
   * those pieces, each in a cell of its own, shifting every later value to the right.
   */
  lemma UnquotedCommaSplits(xs: seq<string>, j: nat, pieces: seq<string>)
    requires j < |xs| && pieces != []
    requires xs[j] == Join(pieces, ",")
    requires forall k :: 0 <= k < |xs| && k != j ==> Plain(xs[k])
    requires forall k :: 0 <= k < |pieces| ==> Plain(pieces[k])
    ensures Cells(Join(xs, ",")) == xs[..j] + pieces + xs[j + 1..]
  {
    var spread := xs[..j] + pieces + xs[j + 1..];
    JoinAt(xs, j, pieces, ",");
    PlainAround(xs, j, pieces);
    PlainCellsReadBack(spread);
  }

  lemma PlainAround(xs: seq<string>, j: nat, pieces: seq<string>)
    requires j < |xs|
    requires forall k :: 0 <= k < |xs| && k != j ==> Plain(xs[k])
    requires forall k :: 0 <= k < |pieces| ==> Plain(pieces[k])
    ensures forall x :: x in xs[..j] + pieces + xs[j + 1..] ==> Plain(x)
  {
    forall x | x in xs[..j] + pieces + xs[j + 1..] ensures Plain(x) {
      if x in xs[..j] {
        var k :| 0 <= k < j && xs[..j][k] == x;
        assert xs[k] == x;
      } else if x in pieces {
        var k :| 0 <= k < |pieces| && pieces[k] == x;
      } else {
        var k :| 0 <= k < |xs[j + 1..]| && xs[j + 1..][k] == x;
        assert xs[j + 1 + k] == x;
      }
    }
  }

  /** A value holding a comma is written between double quotes. */
  function Quote(s: string): (r: string)
    ensures ',' !in s ==> r == s
  {
    if ',' in s then "\"" + s + "\"" else s
  }

  function Quoted(xs: seq<string>): (r: seq<string>)
    ensures |r| == |xs|
  {
    seq(|xs|, i requires 0 <= i < |xs| => Quote(xs[i]))
  }

  /** A quoted value is read as one cell up to its closing quote. */
  lemma QuotedCellFirst(x: string, tail: string)
    requires ',' in x && '"' !in x
    ensures var s := Quote(x) + tail;
      s[0] == '"' && IndexOfChar(s[1..], '"') == Some(|x|) && s[1..|x| + 1] == x && s[|x| + 2..] == tail
  {
    var s := Quote(x) + tail;
    assert s[1..] == x + ['"'] + tail;
    IndexOfCharAfter(x, '"', tail);
  }

  /** The last value of a line reads back as itself. */
  lemma QuotedLast(x: string)
    requires '"' !in x
    ensures Cells(Quote(x)) == [x]
  {
    if ',' in x {
      QuotedCellFirst(x, "");
      assert Quote(x) + "" == Quote(x);
    } else {
      CellsWithoutQuotes(x);
      assert IndexOfChar(x, ',').None?;
    }
  }

  /** A value followed by a comma reads back as itself, and the reader carries on after the comma. */
  lemma QuotedNext(x: string, tail: string)
    requires '"' !in x
    ensures Cells(Quote(x) + ("," + tail)) == [x] + Cells(tail)
  {
    if ',' in x {
      QuotedCellFirst(x, "," + tail);
      assert ("," + tail)[1..] == tail;
    } else {
      var s := x + ("," + tail);
      assert s == x + [','] + tail;
      IndexOfCharAfter(x, ',', tail);
      assert s[..|x|] == x && s[|x| + 1..] == tail;
      if x != [] {
        assert s[0] == x[0];
      }
    }
  }

  /** Written with quotes, a list of values without quotes reads back unchanged. */
  lemma {:induction false} QuotedReadsBack(xs: seq<string>)
    requires xs != []
    requires forall k :: 0 <= k < |xs| ==> Unquoted(xs[k])
    ensures Cells(Join(Quoted(xs), ",")) == xs
  {
    var q := Quoted(xs);
    assert '"' !in xs[0];
    if |xs| == 1 {
      assert Join(q, ",") == Quote(xs[0]);
      QuotedLast(xs[0]);
    } else {
      var tail := Join(q[1..], ",");
      assert Join(q, ",") == Quote(xs[0]) + ("," + tail);
      assert q[1..] == Quoted(xs[1..]);
      QuotedNext(xs[0], tail);
      QuotedReadsBack(xs[1..]);
    }
  }
}
