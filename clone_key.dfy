/**
  The clone identity of a row under an intersection type
  (software/src/main.py, make_clone_key): the identity columns the type names,
  rendered as text and joined with '|'.
 */
module CloneKey {
  import opened Common
  import opened Rows

  const Separator: char := '|'

  /** The four intersection types: with or without the V and J genes, on nucleotide or amino-acid CDR3. */
  predicate KnownIntersection(intersection: string)
  {
    intersection == "CDR3ntVJ" || intersection == "CDR3aaVJ" || intersection == "CDR3nt" || intersection == "CDR3aa"
  }

  /** The columns making up the key, in key order. Single-cell data always uses both chains, A before B. */
  function KeyFields(intersection: string, singleCell: bool): (r: Result<seq<string>>)
    ensures r.Ok? <==> KnownIntersection(intersection)
    ensures r.Err? ==> r.error == UnsupportedIntersection(intersection)
  {
    if singleCell then
      if intersection == "CDR3ntVJ" then Ok(["CDR3nt_A", "CDR3nt_B", "VGene_A", "VGene_B", "JGene_A", "JGene_B"])
      else if intersection == "CDR3aaVJ" then Ok(["CDR3aa_A", "CDR3aa_B", "VGene_A", "VGene_B", "JGene_A", "JGene_B"])
      else if intersection == "CDR3nt" then Ok(["CDR3nt_A", "CDR3nt_B"])
      else if intersection == "CDR3aa" then Ok(["CDR3aa_A", "CDR3aa_B"])
      else Err(UnsupportedIntersection(intersection))
    else
      if intersection == "CDR3ntVJ" then Ok(["CDR3nt", "VGene", "JGene"])
      else if intersection == "CDR3aaVJ" then Ok(["CDR3aa", "VGene", "JGene"])
      else if intersection == "CDR3nt" then Ok(["CDR3nt"])
      else if intersection == "CDR3aa" then Ok(["CDR3aa"])
      else Err(UnsupportedIntersection(intersection))
  }

  /** How a cell reads inside an f-string: a missing value renders as "nan". */
  function CellText(c: Cell): string
  {
    match c
    case Null => "nan"
    case Text(t) => t
  }

  /** The texts of `fields` in row `r`; the first field the table lacks is a KeyError. */
  function FieldTexts(columns: set<string>, r: Row, fields: seq<string>): (t: Result<seq<string>>)
    ensures t.Ok? <==> forall f :: f in fields ==> f in columns
    ensures t.Ok? ==>
              && |t.value| == |fields|
              && forall i :: 0 <= i < |fields| ==> t.value[i] == CellText(if fields[i] in r.cells then r.cells[fields[i]] else Null)
    ensures t.Err? ==>
              exists i ::
                && 0 <= i < |fields| && t.error == MissingColumn(fields[i]) && fields[i] !in columns
                && forall j :: 0 <= j < i ==> fields[j] in columns
  {
    if |fields| == 0 then Ok([])
    else if fields[0] !in columns then Err(MissingColumn(fields[0]))
    else
      var rest :- FieldTexts(columns, r, fields[1..]);
      Ok([CellText(if fields[0] in r.cells then r.cells[fields[0]] else Null)] + rest)
  }

  /** The parts separated by '|'. */
  function Join(parts: seq<string>): string
  {
    if |parts| == 0 then ""
    else if |parts| == 1 then parts[0]
    else parts[0] + [Separator] + Join(parts[1..])
  }

  /** The pieces of `s` between separators (Python's `s.split('|')`). */
  function Split(s: string): (parts: seq<string>)
    ensures |parts| > 0
  {
    if |s| == 0 then [""]
    else
      var rest := Split(s[1..]);
      if s[0] == Separator then [""] + rest
      else [[s[0]] + rest[0]] + rest[1..]
  }

  /** `make_clone_key`. */
  function MakeCloneKey(columns: set<string>, r: Row, intersection: string, singleCell: bool): Result<string>
  {
    var fields :- KeyFields(intersection, singleCell);
    var texts :- FieldTexts(columns, r, fields);
    Ok(Join(texts))
  }

  predicate NoSeparator(parts: seq<string>)
  {
    forall i :: 0 <= i < |parts| ==> Separator !in parts[i]
  }

  lemma {:induction false} SplitPlain(a: string)
    requires Separator !in a
    ensures Split(a) == [a]
  {
    if |a| > 0 {
      SplitPlain(a[1..]);
      assert [a[0]] + a[1..] == a;
    }
  }

  lemma {:induction false} SplitAtSeparator(a: string, b: string)
    requires Separator !in a
    ensures Split(a + [Separator] + b) == [a] + Split(b)
  {
    if |a| == 0 {
      assert a + [Separator] + b == [Separator] + b;
      assert ([Separator] + b)[1..] == b;
    } else {
      var s := a + [Separator] + b;
      assert s[1..] == a[1..] + [Separator] + b;
      SplitAtSeparator(a[1..], b);
      assert [a[0]] + a[1..] == a;
    }
  }

  /** Splitting a key gives back its parts when no part contains the separator. */
  lemma {:induction false} SplitJoin(parts: seq<string>)
    requires |parts| > 0 && NoSeparator(parts)
    ensures Split(Join(parts)) == parts
  {
    if |parts| == 1 {
      SplitPlain(parts[0]);
    } else {
      SplitAtSeparator(parts[0], Join(parts[1..]));
      SplitJoin(parts[1..]);
    }
  }

  /** Every intersection type names at least one column. */
  lemma KeyFieldsNonEmpty(intersection: string, singleCell: bool)
    requires KnownIntersection(intersection)
    ensures |KeyFields(intersection, singleCell).value| > 0
  {
  }

  /** A key is built exactly when the intersection type is known and the table has all its columns,
      and it splits back into the texts of those columns. */
  lemma MakeCloneKeyMeaning(columns: set<string>, r: Row, intersection: string, singleCell: bool)
    ensures var k := MakeCloneKey(columns, r, intersection, singleCell);
      && (!KnownIntersection(intersection) ==> k == Err(UnsupportedIntersection(intersection)))
      && (KnownIntersection(intersection) ==>
            var fields := KeyFields(intersection, singleCell).value;
            var texts := FieldTexts(columns, r, fields);
            && (k.Ok? <==> forall f :: f in fields ==> f in columns)
            && (k.Ok? && NoSeparator(texts.value) ==> Split(k.value) == texts.value))
  {
    if KnownIntersection(intersection) {
      var fields := KeyFields(intersection, singleCell).value;
      var texts := FieldTexts(columns, r, fields);
      if texts.Ok? && NoSeparator(texts.value) {
        KeyFieldsNonEmpty(intersection, singleCell);
        SplitJoin(texts.value);
      }
    }
  }

  /** Two rows share a clone key exactly when they agree, as text, on every key column
      (given that no such text contains the separator). */
  lemma SameKeyIffSameFields(columns: set<string>, r1: Row, r2: Row, intersection: string, singleCell: bool)
    requires MakeCloneKey(columns, r1, intersection, singleCell).Ok?
    requires MakeCloneKey(columns, r2, intersection, singleCell).Ok?
    requires var fields := KeyFields(intersection, singleCell).value;
      NoSeparator(FieldTexts(columns, r1, fields).value) && NoSeparator(FieldTexts(columns, r2, fields).value)
    ensures var fields := KeyFields(intersection, singleCell).value;
      MakeCloneKey(columns, r1, intersection, singleCell) == MakeCloneKey(columns, r2, intersection, singleCell)
      <==> FieldTexts(columns, r1, fields) == FieldTexts(columns, r2, fields)
  {
    MakeCloneKeyMeaning(columns, r1, intersection, singleCell);
    MakeCloneKeyMeaning(columns, r2, intersection, singleCell);
  }
}
