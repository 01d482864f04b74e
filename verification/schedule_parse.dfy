/**
 * The string post-processing of `CataBagulhoService.parseHTML`.
 *
 * The markup traversal itself (cheerio selectors) is abstracted: each
 * `.panel.panel-default` block arrives as the raw texts the selectors yield,
 * and this module turns them into schedule records.
 */
module ScheduleParse {
  import opened Wrappers
  import opened Text

  /** Placeholder for a value the page does not give. */
  const NotInformed := "Não informado"
  const StartLabel := "Início:"
  const EndLabel := "Fim:"
  const DateSeparator: char := ';'

  /** The texts the selectors yield for one block, none of them trimmed yet. */
  datatype RawBlock = RawBlock(
    strongText: string,   // text of `.logradouro strong`
    parts: seq<string>,   // `.logradouro` markup split on `<br>`, each piece as text
    dias: string,         // text of the value cell of the `Dias:` row, "" without such a row
    freq: string,         // ... of the `Freq.:` row
    turno: string,        // ... of the `Turno:` row
    horario: string)      // ... of the `Horário:` row

  /** `CataBagulhoResult`. */
  datatype CataBagulhoResult = CataBagulhoResult(
    street: string,
    startStretch: string,
    endStretch: string,
    dates: seq<string>,
    frequency: string,
    shift: string,
    schedule: string)

  /** The placeholder is a non-empty trimmed text. */
  lemma NotInformedTrimmed()
    ensures NotInformed != [] && Trimmed(NotInformed)
  {
    assert NotInformed[0] == 'N' && NotInformed[|NotInformed| - 1] == 'o';
  }

  /** `text.trim() || 'Não informado'`. */
  function OrNotInformed(text: string): (r: string)
    ensures r != [] && Trimmed(r)
    ensures AllWhitespace(text) ==> r == NotInformed
    ensures !AllWhitespace(text) ==> r == Trim(text)
  {
    NotInformedTrimmed();
    var t := Trim(text);
    if t == [] then NotInformed else t
  }

  /** `extractDetail(label)`, given the text of the row's value cell. */
  function ExtractDetail(cellText: string): (r: string)
    ensures r != [] && Trimmed(r)
    ensures AllWhitespace(cellText) ==> r == NotInformed
    ensures !AllWhitespace(cellText) ==> r == Trim(cellText)
  {
    OrNotInformed(cellText)
  }

  /** `.map(d => d.trim()).filter(d => d)`. */
  function TrimAndDropEmpty(pieces: seq<string>): (r: seq<string>)
    ensures |r| <= |pieces|
    ensures forall i :: 0 <= i < |r| ==> r[i] != [] && Trimmed(r[i])
    ensures pieces != [] && !AllWhitespace(pieces[0]) ==> r != [] && r[0] == Trim(pieces[0])
  {
    if pieces == [] then []
    else
      var d := Trim(pieces[0]);
      var rest := TrimAndDropEmpty(pieces[1..]);
      var head: seq<string> := if d == [] then [] else [d];
      var r := head + rest;
      KeptPiecesCons(head, rest);
      r
  }

  /** The step of `TrimAndDropEmpty`: putting a non-empty trimmed text, if any, in front. */
  lemma KeptPiecesCons(head: seq<string>, rest: seq<string>)
    requires |head| <= 1 && forall i :: 0 <= i < |head| ==> head[i] != [] && Trimmed(head[i])
    requires forall i :: 0 <= i < |rest| ==> rest[i] != [] && Trimmed(rest[i])
    ensures forall i :: 0 <= i < |head + rest| ==> (head + rest)[i] != [] && Trimmed((head + rest)[i])
  {
    var r := head + rest;
    forall i | 0 <= i < |r|
      ensures r[i] != [] && Trimmed(r[i])
    {
      if i >= |head| {
        assert r[i] == rest[i - |head|];
      }
    }
  }

  /** Every kept text is the trim of one of the pieces. */
  lemma {:induction false} KeptAreTrimmedPieces(pieces: seq<string>)
    ensures var r := TrimAndDropEmpty(pieces);
      forall i :: 0 <= i < |r| ==> exists j :: 0 <= j < |pieces| && r[i] == Trim(pieces[j])
    decreases |pieces|
  {
    if pieces != [] {
      KeptAreTrimmedPieces(pieces[1..]);
      TrimAndDropEmptyCons(pieces);
      TrimAndDropEmptySingle(pieces[0]);
      KeptFromCons(pieces, TrimAndDropEmpty([pieces[0]]), TrimAndDropEmpty(pieces[1..]));
    }
  }

  /** The step of `KeptAreTrimmedPieces`: the first piece's trim, if kept, goes in front. */
  lemma KeptFromCons(pieces: seq<string>, head: seq<string>, rest: seq<string>)
    requires pieces != []
    requires head == [] || head == [Trim(pieces[0])]
    requires forall i :: 0 <= i < |rest| ==> exists j :: 0 <= j < |pieces[1..]| && rest[i] == Trim(pieces[1..][j])
    ensures forall i :: 0 <= i < |head + rest| ==> exists j :: 0 <= j < |pieces| && (head + rest)[i] == Trim(pieces[j])
  {
    var r := head + rest;
    forall i | 0 <= i < |r|
      ensures exists j :: 0 <= j < |pieces| && r[i] == Trim(pieces[j])
    {
      if i < |head| {
        assert r[i] == Trim(pieces[0]);
      } else {
        assert r[i] == rest[i - |head|];
        var j :| 0 <= j < |pieces[1..]| && rest[i - |head|] == Trim(pieces[1..][j]);
        assert pieces[1..][j] == pieces[j + 1];
      }
    }
  }

  /** A character that no piece holds is in no kept text. */
  lemma {:induction false} KeptAvoids(pieces: seq<string>, c: char)
    requires forall j :: 0 <= j < |pieces| ==> c !in pieces[j]
    ensures forall i :: 0 <= i < |TrimAndDropEmpty(pieces)| ==> c !in TrimAndDropEmpty(pieces)[i]
    decreases |pieces|
  {
    if pieces != [] {
      assert forall j :: 0 <= j < |pieces[1..]| ==> pieces[1..][j] == pieces[j + 1];
      KeptAvoids(pieces[1..], c);
      SingleAvoids(pieces[0], c);
      TrimAndDropEmptyCons(pieces);
      AvoidsConcat(TrimAndDropEmpty([pieces[0]]), TrimAndDropEmpty(pieces[1..]), c);
    }
  }

  lemma SingleAvoids(p: string, c: char)
    requires c !in p
    ensures forall i :: 0 <= i < |TrimAndDropEmpty([p])| ==> c !in TrimAndDropEmpty([p])[i]
  {
    TrimAndDropEmptySingle(p);
    TrimChars(p);
  }

  lemma AvoidsConcat(a: seq<string>, b: seq<string>, c: char)
    requires forall i :: 0 <= i < |a| ==> c !in a[i]
    requires forall i :: 0 <= i < |b| ==> c !in b[i]
    ensures forall i :: 0 <= i < |a + b| ==> c !in (a + b)[i]
  {
    forall i | 0 <= i < |a + b|
      ensures c !in (a + b)[i]
    {
      if i >= |a| {
        assert (a + b)[i] == b[i - |a|];
      }
    }
  }

  /**
   * `datesText.split(';').map(d => d.trim()).filter(d => d)`: every date is
   * non-empty, trimmed, and holds no `;`.
   */
  function SplitDates(text: string): (dates: seq<string>)
    ensures forall i :: 0 <= i < |dates| ==> dates[i] != [] && Trimmed(dates[i]) && DateSeparator !in dates[i]
    ensures |dates| <= Occurrences(text, DateSeparator) + 1
    ensures DateSeparator !in text ==> dates == if AllWhitespace(text) then [] else [Trim(text)]
  {
    var pieces := Split(text, DateSeparator);
    SplitCount(text, DateSeparator);
    var dates := TrimAndDropEmpty(pieces);
    KeptAvoids(pieces, DateSeparator);
    assert DateSeparator !in text ==> dates == if AllWhitespace(text) then [] else [Trim(text)] by {
      if DateSeparator !in text {
        SplitWithoutSeparator(text, DateSeparator);
        TrimAndDropEmptySingle(text);
      }
    }
    dates
  }

  /** Index of the first part whose trimmed text starts with `prefix`. */
  function FindLabelled(parts: seq<string>, prefix: string): (r: Option<nat>)
    ensures r.Some? ==> r.value < |parts| && StartsWith(Trim(parts[r.value]), prefix)
    ensures r.Some? ==> forall j :: 0 <= j < r.value ==> !StartsWith(Trim(parts[j]), prefix)
    ensures r.None? ==> forall j :: 0 <= j < |parts| ==> !StartsWith(Trim(parts[j]), prefix)
  {
    if parts == [] then None
    else if StartsWith(Trim(parts[0]), prefix) then Some(0)
    else
      match FindLabelled(parts[1..], prefix)
      case Some(i) =>
        NoLabelBefore(parts, prefix, i);
        assert parts[i + 1] == parts[1..][i];
        Some(i + 1)
      case None =>
        NoLabelBefore(parts, prefix, |parts| - 1);
        None
  }

  /** The step of `FindLabelled`: no match among the first part and the next `n` ones. */
  lemma NoLabelBefore(parts: seq<string>, prefix: string, n: nat)
    requires n < |parts| && !StartsWith(Trim(parts[0]), prefix)
    requires forall j :: 0 <= j < n ==> !StartsWith(Trim(parts[1..][j]), prefix)
    ensures forall j :: 0 <= j < n + 1 ==> !StartsWith(Trim(parts[j]), prefix)
  {
    forall j | 0 < j < n + 1
      ensures !StartsWith(Trim(parts[j]), prefix)
    {
      assert parts[j] == parts[1..][j - 1];
    }
  }

  /**
   * `parts.find(p => p.startsWith(prefix))?.replace(prefix, '').trim() || 'Não informado'`
   * where the parts are already trimmed.
   */
  function Stretch(parts: seq<string>, prefix: string): (r: string)
    ensures r != [] && Trimmed(r)
    ensures FindLabelled(parts, prefix).None? ==> r == NotInformed
    ensures FindLabelled(parts, prefix).Some? ==>
      var rest := Trim(parts[FindLabelled(parts, prefix).value])[|prefix|..];
      (AllWhitespace(rest) ==> r == NotInformed) && (!AllWhitespace(rest) ==> r == Trim(rest))
  {
    match FindLabelled(parts, prefix)
    case None => NotInformed
    case Some(i) => OrNotInformed(Trim(parts[i])[|prefix|..])
  }

  /** One block, or `None` when it has no street name and is skipped. */
  function ParseBlock(b: RawBlock): (r: Option<CataBagulhoResult>)
    ensures r.None? <==> AllWhitespace(b.strongText)
    ensures r.Some? ==> r.value.street == Trim(b.strongText)
    ensures r.Some? ==>
      && r.value.startStretch == Stretch(b.parts, StartLabel)
      && r.value.endStretch == Stretch(b.parts, EndLabel)
      && r.value.dates == SplitDates(ExtractDetail(b.dias))
      && r.value.frequency == ExtractDetail(b.freq)
      && r.value.shift == ExtractDetail(b.turno)
      && r.value.schedule == ExtractDetail(b.horario)
    ensures r.Some? ==> WellFormed(r.value)
  {
    var street := Trim(b.strongText);
    if street == [] then None
    else
      Some(CataBagulhoResult(
        street,
        Stretch(b.parts, StartLabel),
        Stretch(b.parts, EndLabel),
        SplitDates(ExtractDetail(b.dias)),
        ExtractDetail(b.freq),
        ExtractDetail(b.turno),
        ExtractDetail(b.horario)))
  }

  /** Every field of a record the parser emits is filled in. */
  predicate WellFormed(r: CataBagulhoResult) {
    && r.street != [] && Trimmed(r.street)
    && r.startStretch != [] && r.endStretch != []
    && r.frequency != [] && r.shift != [] && r.schedule != []
    && forall i :: 0 <= i < |r.dates| ==> r.dates[i] != [] && DateSeparator !in r.dates[i]
  }

  /** `parseHTML` after the selectors: one record per block that names a street, in page order. */
  function ParseBlocks(blocks: seq<RawBlock>): (rs: seq<CataBagulhoResult>)
    ensures |rs| <= |blocks|
    ensures forall i :: 0 <= i < |rs| ==> WellFormed(rs[i])
  {
    if blocks == [] then []
    else
      var rest := ParseBlocks(blocks[1..]);
      match ParseBlock(blocks[0])
      case None => rest
      case Some(r) =>
        AllWellFormedCons(r, rest);
        [r] + rest
  }

  lemma AllWellFormedCons(r: CataBagulhoResult, rest: seq<CataBagulhoResult>)
    requires WellFormed(r)
    requires forall i :: 0 <= i < |rest| ==> WellFormed(rest[i])
    ensures forall i :: 0 <= i < |[r] + rest| ==> WellFormed(([r] + rest)[i])
  {
    forall i | 0 <= i < |[r] + rest|
      ensures WellFormed(([r] + rest)[i])
    {
      if i > 0 {
        assert ([r] + rest)[i] == rest[i - 1];
      }
    }
  }

  // ---------------------------------------------------------------------------
  // Lemmas
  // ---------------------------------------------------------------------------

  /** Parsing works block by block: the records of two runs of blocks are concatenated. */
  lemma {:induction false} ParseBlocksConcat(a: seq<RawBlock>, b: seq<RawBlock>)
    ensures ParseBlocks(a + b) == ParseBlocks(a) + ParseBlocks(b)
    decreases |a|
  {
    if a == [] {
      assert a + b == b;
    } else {
      assert (a + b)[1..] == a[1..] + b;
      ParseBlocksConcat(a[1..], b);
    }
  }

  /** A single block yields exactly one record, or none when its street is blank. */
  lemma ParseSingleBlock(b: RawBlock)
    ensures AllWhitespace(b.strongText) ==> ParseBlocks([b]) == []
    ensures !AllWhitespace(b.strongText) ==> ParseBlocks([b]) == [ParseBlock(b).value]
  {
    assert [b][1..] == [];
  }

  /** With no blocks on the page the result is empty rather than an error. */
  lemma NoBlocksNoResults()
    ensures ParseBlocks([]) == []
  {
  }

  lemma {:induction false} TrimAndDropEmptyOfClean(ds: seq<string>)
    requires forall i :: 0 <= i < |ds| ==> ds[i] != [] && Trimmed(ds[i])
    ensures TrimAndDropEmpty(ds) == ds
    decreases |ds|
  {
    if ds != [] {
      TrimOfTrimmed(ds[0]);
      assert forall i :: 0 <= i < |ds[1..]| ==> ds[1..][i] == ds[i + 1];
      TrimAndDropEmptyOfClean(ds[1..]);
      TrimAndDropEmptyCons(ds);
      TrimAndDropEmptySingle(ds[0]);
      HeadTail(ds);
    }
  }

  lemma HeadTail<T>(s: seq<T>)
    requires s != []
    ensures s == [s[0]] + s[1..]
  {
  }

  lemma SplitAround<T>(s: seq<T>, j: nat)
    requires j < |s|
    ensures s == s[..j] + [s[j]] + s[j + 1..]
  {
  }

  lemma SplitAtLength<T>(a: seq<T>, b: seq<T>)
    ensures (a + b)[..|a|] == a && (a + b)[|a|..] == b
  {
  }

  lemma ConcatAssociative<T>(a: seq<T>, b: seq<T>, c: seq<T>)
    ensures a + (b + c) == (a + b) + c
  {
  }

  /** The first piece contributes what it would contribute on its own. */
  lemma TrimAndDropEmptyCons(ps: seq<string>)
    requires ps != []
    ensures TrimAndDropEmpty(ps) == TrimAndDropEmpty([ps[0]]) + TrimAndDropEmpty(ps[1..])
  {
    var d := Trim(ps[0]);
    var head: seq<string> := if d == [] then [] else [d];
    assert TrimAndDropEmpty(ps) == head + TrimAndDropEmpty(ps[1..]);
    assert [ps[0]][1..] == [];
    assert TrimAndDropEmpty([ps[0]]) == head + [];
    assert head + [] == head;
  }

  /** The first element and the tail of a concatenation with a non-empty front. */
  lemma ConcatHeadTail<T>(a: seq<T>, b: seq<T>)
    requires a != []
    ensures (a + b)[0] == a[0] && (a + b)[1..] == a[1..] + b
  {
  }

  /** The kept pieces of two runs are those of each run, in order. */
  lemma {:induction false} TrimAndDropEmptyConcat(ps: seq<string>, qs: seq<string>)
    ensures TrimAndDropEmpty(ps + qs) == TrimAndDropEmpty(ps) + TrimAndDropEmpty(qs)
    decreases |ps|
  {
    if ps == [] {
      assert ps + qs == qs;
    } else {
      ConcatHeadTail(ps, qs);
      TrimAndDropEmptyCons(ps + qs);
      TrimAndDropEmptyCons(ps);
      TrimAndDropEmptyConcat(ps[1..], qs);
      ConcatAssociative(TrimAndDropEmpty([ps[0]]), TrimAndDropEmpty(ps[1..]), TrimAndDropEmpty(qs));
    }
  }

  /** A single piece is kept, trimmed, unless it is blank. */
  lemma TrimAndDropEmptySingle(p: string)
    ensures TrimAndDropEmpty([p]) == if AllWhitespace(p) then [] else [Trim(p)]
  {
    assert [p][1..] == [];
  }

  /** Hence every non-blank piece appears, trimmed, after the kept pieces before it. */
  lemma TrimAndDropEmptyKeeps(ps: seq<string>, j: nat)
    requires j < |ps| && !AllWhitespace(ps[j])
    ensures TrimAndDropEmpty(ps) == TrimAndDropEmpty(ps[..j]) + [Trim(ps[j])] + TrimAndDropEmpty(ps[j + 1..])
  {
    var before, x, after := ps[..j], ps[j], ps[j + 1..];
    SplitAround(ps, j);
    TrimAndDropEmptyConcat(before + [x], after);
    TrimAndDropEmptyConcat(before, [x]);
    TrimAndDropEmptySingle(x);
  }


  /**
   * The dates of a text written as `;`-separated pieces are the trimmed,
   * non-blank pieces, in order.
   */
  lemma SplitDatesOfPieces(ps: seq<string>)
    requires |ps| >= 1
    requires forall i :: 0 <= i < |ps| ==> DateSeparator !in ps[i]
    ensures SplitDates(Join(ps, DateSeparator)) == TrimAndDropEmpty(ps)
  {
    SplitJoin(ps, DateSeparator);
  }

  /** `trim()` on the first piece of `"seg; qua"`. */
  lemma ExampleTrimSeg()
    ensures Trim("seg") == "seg"
  {
    var seg := "seg";
    assert seg[0] == 's' && seg[2] == 'g';
    TrimOfTrimmed(seg);
  }

  /** `trim()` on the second piece of `"seg; qua"`. */
  lemma ExampleTrimQua()
    ensures Trim(" qua") == "qua"
  {
    var qua := "qua";
    assert qua[0] == 'q' && qua[2] == 'a';
    TrimOfPadded(" ", qua, []);
    assert " " + qua + [] == " qua";
  }

  /** Two non-blank pieces are both kept, trimmed, in order. */
  lemma TrimAndDropEmptyPair(x: string, y: string)
    requires !AllWhitespace(x) && !AllWhitespace(y)
    ensures TrimAndDropEmpty([x, y]) == [Trim(x), Trim(y)]
  {
    TrimAndDropEmptySingle(x);
    TrimAndDropEmptySingle(y);
    assert [x, y] == [x] + [y];
    TrimAndDropEmptyConcat([x], [y]);
    assert [Trim(x)] + [Trim(y)] == [Trim(x), Trim(y)];
  }

  /** A typical cell: `"seg; qua"` gives the two days, without the space. */
  lemma SplitDatesExample()
    ensures SplitDates("seg; qua") == ["seg", "qua"]
  {
    var ps := ["seg", " qua"];
    assert Join(ps, DateSeparator) == "seg; qua";
    assert DateSeparator !in ps[0] && DateSeparator !in ps[1];
    SplitDatesOfPieces(ps);
    ExampleTrimSeg();
    ExampleTrimQua();
    TrimAndDropEmptyPair(ps[0], ps[1]);
  }

  /**
   * Round trip: dates that are non-empty, trimmed and free of `;`, written out
   * joined by `;`, are split back into exactly the same list.
   */
  lemma SplitDatesOfJoin(ds: seq<string>)
    requires forall i :: 0 <= i < |ds| ==> ds[i] != [] && Trimmed(ds[i]) && DateSeparator !in ds[i]
    ensures SplitDates(Join(ds, DateSeparator)) == ds
  {
    if ds == [] {
      assert Split([], DateSeparator) == [[]];
      assert Trim([]) == [];
    } else {
      SplitJoin(ds, DateSeparator);
      TrimAndDropEmptyOfClean(ds);
    }
  }

  /** The placeholder text survives the dates split as a single date. */
  lemma SplitDatesOfPlaceholder()
    ensures SplitDates(NotInformed) == [NotInformed]
  {
    assert Trimmed(NotInformed) by {
      assert NotInformed[0] == 'N' && NotInformed[|NotInformed| - 1] == 'o';
    }
    assert DateSeparator !in NotInformed by {
      forall i | 0 <= i < |NotInformed|
        ensures NotInformed[i] != DateSeparator
      {
      }
    }
    SplitWithoutSeparator(NotInformed, DateSeparator);
    TrimAndDropEmptyOfClean([NotInformed]);
  }

  /** Without a `Dias:` row the dates list is the single placeholder. */
  lemma MissingDaysRow(b: RawBlock)
    requires !AllWhitespace(b.strongText) && AllWhitespace(b.dias)
    ensures ParseBlock(b).value.dates == [NotInformed]
  {
    assert ExtractDetail(b.dias) == NotInformed;
    SplitDatesOfPlaceholder();
  }

  /** `find` picks the first match: a matching part after non-matching ones is found. */
  lemma {:induction false} FindAfterNonMatching(before: seq<string>, part: string, after: seq<string>, prefix: string)
    requires forall j :: 0 <= j < |before| ==> !StartsWith(Trim(before[j]), prefix)
    requires StartsWith(Trim(part), prefix)
    ensures FindLabelled(before + [part] + after, prefix) == Some(|before|)
    decreases |before|
  {
    var all := before + [part] + after;
    if before == [] {
      assert all[0] == part;
    } else {
      assert all[0] == before[0];
      assert all[1..] == before[1..] + [part] + after;
      FindAfterNonMatching(before[1..], part, after, prefix);
    }
  }

  /** Trimming a padded `prefix + gap + text` and dropping the prefix leaves `gap + text`. */
  lemma PrefixedPartText(padL: string, prefix: string, gap: string, text: string, padR: string)
    requires prefix != [] && Trimmed(prefix)
    requires AllWhitespace(padL) && AllWhitespace(gap) && AllWhitespace(padR)
    requires text != [] && Trimmed(text)
    ensures StartsWith(Trim(padL + prefix + gap + text + padR), prefix)
    ensures Trim(padL + prefix + gap + text + padR)[|prefix|..] == gap + text
  {
    var p := prefix + gap + text;
    assert Trimmed(p) by {
      assert p[0] == prefix[0];
      assert p[|p| - 1] == text[|text| - 1];
    }
    var whole := padL + prefix + gap + text + padR;
    assert whole == padL + p + padR;
    TrimOfPadded(padL, p, padR);
    assert Trim(whole) == p;
    ConcatAssociative(prefix, gap, text);
    SplitAtLength(prefix, gap + text);
  }

  /**
   * The stretch is what follows the label in the first part carrying it,
   * with surrounding whitespace removed.
   */
  lemma StretchOfLabelledPart(
    before: seq<string>, padL: string, prefix: string, gap: string, text: string, padR: string, after: seq<string>)
    requires forall j :: 0 <= j < |before| ==> !StartsWith(Trim(before[j]), prefix)
    requires prefix != [] && Trimmed(prefix)
    requires AllWhitespace(padL) && AllWhitespace(gap) && AllWhitespace(padR)
    requires text != [] && Trimmed(text)
    ensures Stretch(before + [padL + prefix + gap + text + padR] + after, prefix) == text
  {
    var part := padL + prefix + gap + text + padR;
    PrefixedPartText(padL, prefix, gap, text, padR);
    FindAfterNonMatching(before, part, after, prefix);
    assert (before + [part] + after)[|before|] == part;
    TrimOfPadded(gap, text, []);
    assert gap + text + [] == gap + text;
  }

  /** A label followed by nothing but whitespace gives the placeholder. */
  lemma StretchOfBlankLabel(before: seq<string>, padL: string, prefix: string, gap: string, after: seq<string>)
    requires forall j :: 0 <= j < |before| ==> !StartsWith(Trim(before[j]), prefix)
    requires prefix != [] && Trimmed(prefix)
    requires AllWhitespace(padL) && AllWhitespace(gap)
    ensures Stretch(before + [padL + prefix + gap] + after, prefix) == NotInformed
  {
    var part := padL + prefix + gap;
    TrimOfPadded(padL, prefix, gap);
    assert Trim(part)[..|prefix|] == prefix;
    FindAfterNonMatching(before, part, after, prefix);
    assert (before + [part] + after)[|before|] == part;
    assert Trim(part)[|prefix|..] == [];
  }

  /** The labels are non-empty trimmed texts. */
  lemma LabelsTrimmed()
    ensures StartLabel != [] && Trimmed(StartLabel)
    ensures EndLabel != [] && Trimmed(EndLabel)
  {
    assert StartLabel[0] == 'I' && StartLabel[|StartLabel| - 1] == ':';
    assert EndLabel[0] == 'F' && EndLabel[|EndLabel| - 1] == ':';
  }

  /**
   * End to end: the start of the stretch a record carries is the text after
   * `Início:` in the block's first part carrying that label.
   */
  lemma StartStretchOfBlock(
    b: RawBlock, before: seq<string>, padL: string, gap: string, text: string, padR: string, after: seq<string>)
    requires !AllWhitespace(b.strongText)
    requires b.parts == before + [padL + StartLabel + gap + text + padR] + after
    requires forall j :: 0 <= j < |before| ==> !StartsWith(Trim(before[j]), StartLabel)
    requires AllWhitespace(padL) && AllWhitespace(gap) && AllWhitespace(padR)
    requires text != [] && Trimmed(text)
    ensures ParseBlock(b).value.startStretch == text
  {
    LabelsTrimmed();
    StretchOfLabelledPart(before, padL, StartLabel, gap, text, padR, after);
  }

  /** End to end: the end of the stretch is the text after `Fim:` in the first part carrying it. */
  lemma EndStretchOfBlock(
    b: RawBlock, before: seq<string>, padL: string, gap: string, text: string, padR: string, after: seq<string>)
    requires !AllWhitespace(b.strongText)
    requires b.parts == before + [padL + EndLabel + gap + text + padR] + after
    requires forall j :: 0 <= j < |before| ==> !StartsWith(Trim(before[j]), EndLabel)
    requires AllWhitespace(padL) && AllWhitespace(gap) && AllWhitespace(padR)
    requires text != [] && Trimmed(text)
    ensures ParseBlock(b).value.endStretch == text
  {
    LabelsTrimmed();
    StretchOfLabelledPart(before, padL, EndLabel, gap, text, padR, after);
  }

  /** End to end: a record's frequency, shift and schedule are the trimmed cells of their rows. */
  lemma DetailsOfBlock(b: RawBlock)
    requires !AllWhitespace(b.strongText)
    requires !AllWhitespace(b.freq) && !AllWhitespace(b.turno) && !AllWhitespace(b.horario)
    ensures ParseBlock(b).value.frequency == Trim(b.freq)
    ensures ParseBlock(b).value.shift == Trim(b.turno)
    ensures ParseBlock(b).value.schedule == Trim(b.horario)
  {
  }
}
