/**
 * The line loop of MarvelParser.parseData: every line of the data file is
 * split at commas into a character name and a comic book, and the names are
 * grouped by book in file order. One malformed line makes the whole parse
 * fail with an IOException, so no partial map is ever returned.
 *
 * Reading the file is not modelled: the loop takes the lines it would have
 * read.
 */
module MarvelParser {
  import opened Wrappers

  // ---------------------------------------------------------------------
  // String.split(",")
  // ---------------------------------------------------------------------

  /** The pieces of s between commas, empty ones included; k commas give
      k + 1 pieces. */
  function Fields(s: string): (r: seq<string>)
    ensures |r| >= 1
    decreases |s|
  {
    if s == [] then [""]
    else if s[0] == ',' then [""] + Fields(s[1..])
    else
      var rest := Fields(s[1..]);
      [[s[0]] + rest[0]] + rest[1..]
  }

  /** The pieces put back together with a comma between each two. */
  function Join(parts: seq<string>): string
    requires |parts| >= 1
    decreases |parts|
  {
    if |parts| == 1 then parts[0] else parts[0] + "," + Join(parts[1..])
  }

  /** The pieces without their trailing empty ones. */
  function DropTrailingEmpty(parts: seq<string>): (r: seq<string>)
    ensures |r| <= |parts| && r == parts[..|r|]
    ensures r != [] ==> r[|r| - 1] != ""
    ensures forall k | |r| <= k < |parts| :: parts[k] == ""
    decreases |parts|
  {
    if parts == [] then []
    else if parts[|parts| - 1] == "" then DropTrailingEmpty(parts[..|parts| - 1])
    else parts
  }

  /** Java's line.split(","): a string without a comma is its own single
      piece (even when it is empty); otherwise the pieces between commas,
      with trailing empty pieces removed. */
  function Split(s: string): (r: seq<string>)
    ensures |r| <= |Fields(s)| && r == Fields(s)[..|r|]
    ensures forall k | |r| <= k < |Fields(s)| :: Fields(s)[k] == ""
    ensures ',' in s && r != [] ==> r[|r| - 1] != ""
    ensures forall k | 0 <= k < |r| :: ',' !in r[k]
    ensures ',' !in s ==> r == [s]
  {
    FieldsHaveNoComma(s);
    if ',' !in s then FieldsOfWord(s, ""); [s] else DropTrailingEmpty(Fields(s))
  }

  function Commas(k: nat): string {
    seq(k, _ => ',')
  }

  /** No piece contains a comma. */
  lemma {:induction false} FieldsHaveNoComma(s: string)
    ensures forall k | 0 <= k < |Fields(s)| :: ',' !in Fields(s)[k]
    decreases |s|
  {
    if s != [] {
      FieldsHaveNoComma(s[1..]);
    }
  }

  /** Joining the pieces gives the string back. */
  lemma {:induction false} JoinFields(s: string)
    ensures Join(Fields(s)) == s
    decreases |s|
  {
    if s != [] {
      JoinFields(s[1..]);
      assert s == [s[0]] + s[1..];
      JoinFieldsStep(s[0], s[1..]);
    }
  }

  /** One character in front of a string that JoinFields holds for. */
  lemma JoinFieldsStep(c: char, t: string)
    requires Join(Fields(t)) == t
    ensures Join(Fields([c] + t)) == [c] + t
  {
    var s := [c] + t;
    assert s[1..] == t;
    var rest := Fields(t);
    if c == ',' {
      assert Fields(s) == [""] + rest;
      JoinCons("", rest);
    } else if |rest| == 1 {
      assert Fields(s) == [[c] + rest[0]];
    } else {
      var head := [c] + rest[0];
      assert Fields(s) == [head] + rest[1..];
      JoinCons(head, rest[1..]);
      JoinCons(rest[0], rest[1..]);
      assert [rest[0]] + rest[1..] == rest;
      assert head + "," + Join(rest[1..]) == [c] + (rest[0] + "," + Join(rest[1..]));
    }
  }

  /** Joining a piece in front of others. */
  lemma JoinCons(x: string, parts: seq<string>)
    requires |parts| >= 1
    ensures Join([x] + parts) == x + "," + Join(parts)
  {
    assert ([x] + parts)[1..] == parts;
  }

  /** A word without a comma, then a comma, then t. */
  lemma {:induction false} FieldsOfWord(w: string, t: string)
    requires ',' !in w
    ensures Fields(w) == [w]
    ensures Fields(w + "," + t) == [w] + Fields(t)
    decreases |w|
  {
    if w != [] {
      FieldsOfWord(w[1..], t);
      assert [w[0]] + w[1..] == w;
      assert (w + "," + t)[1..] == w[1..] + "," + t;
    } else {
      assert w + "," + t == [','] + t;
    }
  }

  /** Splitting pieces without commas after joining them gives them back. */
  lemma {:induction false} FieldsJoin(parts: seq<string>)
    requires |parts| >= 1
    requires forall k | 0 <= k < |parts| :: ',' !in parts[k]
    ensures Fields(Join(parts)) == parts
    decreases |parts|
  {
    if |parts| == 1 {
      FieldsOfWord(parts[0], "");
    } else {
      var rest := parts[1..];
      FieldsJoin(rest);
      FieldsOfWord(parts[0], Join(rest));
      assert parts == [parts[0]] + rest;
      JoinCons(parts[0], rest);
    }
  }

  /** Joining one more piece. */
  lemma {:induction false} JoinSnoc(parts: seq<string>, x: string)
    requires |parts| >= 1
    ensures Join(parts + [x]) == Join(parts) + "," + x
    decreases |parts|
  {
    if |parts| > 1 {
      assert (parts + [x])[1..] == parts[1..] + [x];
      JoinSnoc(parts[1..], x);
    }
  }

  /** Dropping trailing empty pieces drops as many trailing commas. */
  lemma {:induction false} JoinDropTrailingEmpty(parts: seq<string>)
    requires DropTrailingEmpty(parts) != []
    ensures Join(parts) == Join(DropTrailingEmpty(parts)) + Commas(|parts| - |DropTrailingEmpty(parts)|)
    decreases |parts|
  {
    var n := |parts|;
    if parts[n - 1] == "" {
      var front := parts[..n - 1];
      JoinDropTrailingEmpty(front);
      assert parts == front + [""];
      JoinSnoc(front, "");
      var k := |front| - |DropTrailingEmpty(front)|;
      assert Commas(k) + "," == Commas(k + 1);
    } else {
      assert Commas(0) == "";
    }
  }

  /** One line of the data file: a character and a comic book it appears in. */
  datatype Entry = Entry(name: string, book: string)

  /** A line is well formed when it splits into exactly two pieces: the
      name and then the book. */
  function ParseLine(line: string): (r: Option<Entry>)
    ensures r.Some? <==> |Split(line)| == 2
  {
    var parts := Split(line);
    if |parts| == 2 then Some(Entry(parts[0], parts[1])) else None
  }

  /** Round trip: a name and a non-empty book, neither with a comma, written
      as "name,book" parse back into the two of them. */
  lemma ParseWrittenLine(name: string, book: string)
    requires ',' !in name && ',' !in book && book != ""
    ensures ParseLine(name + "," + book) == Some(Entry(name, book))
  {
    var line := name + "," + book;
    assert line[|name|] == ',';
    FieldsOfWord(name, book);
    FieldsOfWord(book, "");
  }

  /** The converse: a line that parses is its name, a comma, its non-empty
      book and possibly some more commas; neither piece holds a comma. */
  lemma ParsedLineShape(line: string)
    requires ParseLine(line).Some?
    ensures var e := ParseLine(line).value;
      ',' !in e.name && ',' !in e.book && e.book != "" &&
      exists k: nat :: line == e.name + "," + e.book + Commas(k)
  {
    var fields := Fields(line);
    var parts := Split(line);
    assert ',' !in line ==> parts == [line];
    assert ',' in line;
    FieldsHaveNoComma(line);
    JoinFields(line);
    JoinDropTrailingEmpty(fields);
    assert parts == fields[..2];
    assert Join(parts) == parts[0] + "," + parts[1];
    var k := |fields| - |parts|;
    assert line == parts[0] + "," + parts[1] + Commas(k);
  }

  predicate AllWellFormed(lines: seq<string>) {
    forall i | 0 <= i < |lines| :: ParseLine(lines[i]).Some?
  }

  /** The entries of a file all of whose lines parse. */
  function Entries(lines: seq<string>): (es: seq<Entry>)
    requires AllWellFormed(lines)
    ensures |es| == |lines|
    ensures forall i | 0 <= i < |lines| :: ParseLine(lines[i]) == Some(es[i])
  {
    seq(|lines|, i requires 0 <= i < |lines| && AllWellFormed(lines) => ParseLine(lines[i]).value)
  }

  // ---------------------------------------------------------------------
  // Grouping names by book
  // ---------------------------------------------------------------------

  /** The books named by some entry. */
  function Books(es: seq<Entry>): set<string> {
    set e | e in es :: e.book
  }

  /** The names of the entries of book b, in file order, duplicates kept. */
  function NamesFor(es: seq<Entry>, b: string): seq<string>
    decreases |es|
  {
    if es == [] then []
    else
      var last := es[|es| - 1];
      NamesFor(es[..|es| - 1], b) + (if last.book == b then [last.name] else [])
  }

  /** One more entry names one more book. */
  lemma BooksSnoc(es: seq<Entry>, e: Entry)
    ensures Books(es + [e]) == Books(es) + {e.book}
  {
    forall x | x in Books(es + [e]) ensures x in Books(es) + {e.book} {
      var f :| f in es + [e] && x == f.book;
    }
    forall x | x in Books(es) ensures x in Books(es + [e]) {
      var f :| f in es && x == f.book;
      assert f in es + [e];
    }
    assert e in es + [e];
  }

  /** One more entry adds its name to its own book only. */
  lemma NamesForSnoc(es: seq<Entry>, e: Entry, b: string)
    ensures NamesFor(es + [e], b) == NamesFor(es, b) + (if e.book == b then [e.name] else [])
  {
    assert (es + [e])[..|es|] == es;
  }

  /** The names of two stretches of a file, one after the other. */
  lemma {:induction false} NamesForAppend(a: seq<Entry>, c: seq<Entry>, b: string)
    ensures NamesFor(a + c, b) == NamesFor(a, b) + NamesFor(c, b)
    decreases |c|
  {
    if c != [] {
      var n := |c| - 1;
      assert a + c == (a + c[..n]) + [c[n]];
      assert c == c[..n] + [c[n]];
      NamesForSnoc(a + c[..n], c[n], b);
      NamesForSnoc(c[..n], c[n], b);
      NamesForAppend(a, c[..n], b);
      var x, y, z := NamesFor(a, b), NamesFor(c[..n], b), if c[n].book == b then [c[n].name] else [];
      assert (x + y) + z == x + (y + z);
    } else {
      assert a + c == a;
    }
  }

  /** A file split around its entry i (kept apart so that the sequence
      identities do not meet the recursive definitions in one proof). */
  lemma SplitAt(es: seq<Entry>, i: nat)
    requires i < |es|
    ensures es[..i + 1] + es[i + 1..] == es
    ensures es[..i + 1] == es[..i] + [es[i]]
  {
  }

  /** Each entry contributes exactly one name: its own, in its place among
      the names of its book. */
  lemma LineContributes(es: seq<Entry>, i: nat)
    requires i < |es|
    ensures NamesFor(es, es[i].book) == NamesFor(es[..i], es[i].book) + [es[i].name] + NamesFor(es[i + 1..], es[i].book)
  {
    SplitAt(es, i);
    NamesForAppend(es[..i + 1], es[i + 1..], es[i].book);
    NamesForSnoc(es[..i], es[i], es[i].book);
  }

  /** A book is a key exactly when some entry names it: its list is created
      on its first entry and never left empty. */
  lemma {:induction false} BooksHaveNames(es: seq<Entry>, b: string)
    ensures b in Books(es) <==> NamesFor(es, b) != []
    decreases |es|
  {
    if es != [] {
      var n := |es| - 1;
      assert es == es[..n] + [es[n]];
      BooksHaveNames(es[..n], b);
      BooksSnoc(es[..n], es[n]);
      NamesForSnoc(es[..n], es[n], b);
    }
  }

  /** The map parseData builds: the books of the entries, each with its
      names. */
  predicate Grouped(m: map<string, seq<string>>, es: seq<Entry>) {
    m.Keys == Books(es) && forall b | b in m :: m[b] == NamesFor(es, b)
  }

  /** The body of the line loop after the split: a new book gets an empty list, then the name is appended
      to the book's list. */
  lemma GroupedStep(m: map<string, seq<string>>, es: seq<Entry>, e: Entry)
    requires Grouped(m, es)
    ensures var m1 := if e.book in m then m else m[e.book := []];
            Grouped(m1[e.book := m1[e.book] + [e.name]], es + [e])
  {
    var m1 := if e.book in m then m else m[e.book := []];
    var m' := m1[e.book := m1[e.book] + [e.name]];
    BooksSnoc(es, e);
    if e.book !in m {
      BooksHaveNames(es, e.book);
    }
    forall b | b in m' ensures m'[b] == NamesFor(es + [e], b) {
      NamesForSnoc(es, e, b);
    }
  }

  /** The entries of the lines read so far, one more line at a time. */
  lemma ParsedStep(lines: seq<string>, es: seq<Entry>, e: Entry)
    requires |es| < |lines| && ParseLine(lines[|es|]) == Some(e)
    requires forall k | 0 <= k < |es| :: ParseLine(lines[k]) == Some(es[k])
    ensures forall k | 0 <= k < |es| + 1 :: ParseLine(lines[k]) == Some((es + [e])[k])
  {
  }

  /** Entries for every line are the entries of the file. */
  lemma ParsedAll(lines: seq<string>, es: seq<Entry>)
    requires |es| == |lines|
    requires forall k | 0 <= k < |es| :: ParseLine(lines[k]) == Some(es[k])
    ensures AllWellFormed(lines) && es == Entries(lines)
  {
  }

  /**
   * The loop of parseData over the lines already read. The result is an
   * IOException exactly when some line does not split into two pieces;
   * otherwise its keys are the books named on the lines and each book maps
   * to the names on its lines, in file order.
   */
  method ParseData(lines: seq<string>) returns (r: Result<map<string, seq<string>>>)
    ensures r.Err? <==> !AllWellFormed(lines)
    ensures r.Err? ==> r.error == IOError
    ensures r.Ok? ==> r.value.Keys == Books(Entries(lines))
    ensures r.Ok? ==> forall b | b in r.value :: r.value[b] == NamesFor(Entries(lines), b)
  {
    var m: map<string, seq<string>> := map[];
    ghost var es: seq<Entry> := [];
    var i := 0;
    while i < |lines|
      invariant i <= |lines| && |es| == i
      invariant forall k | 0 <= k < i :: ParseLine(lines[k]) == Some(es[k])
      invariant Grouped(m, es)
    {
      var parts := Split(lines[i]);
      if |parts| != 2 {
        return Err(IOError);
      }
      var name := parts[0];
      var book := parts[1];
      ghost var entry := Entry(name, book);
      ghost var before := m;
      if book !in m {
        m := m[book := []];
      }
      m := m[book := m[book] + [name]];
      GroupedStep(before, es, entry);
      ParsedStep(lines, es, entry);
      es := es + [entry];
      i := i + 1;
    }
    ParsedAll(lines, es);
    return Ok(m);
  }
}
