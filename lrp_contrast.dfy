/**
 The text handling of the LRP comparison dashboard: SentencePiece
 detokenisation, column-label tokenisation, the sentence table, the
 reference list, the heatmap axis labels and the lookup of the selected
 sentence in the three loaded lists.
 */
module LrpContrast {
  import opened PyStr

  /** SentencePiece's word-boundary marker, U+2581 LOWER ONE EIGHTH BLOCK. */
  const Marker: char := '\U{2581}'

  /** The sentinel label appended to each heatmap axis. */
  const Eos: string := "<EOS>"

  /** A character that is neither whitespace nor the marker: the text of a sentence. */
  predicate IsText(c: char)
  {
    !IsSpace(c) && c != Marker
  }

  /** `sent.replace(' ', '').replace('▁', ' ')`: drop the piece separators, turn markers into spaces. */
  function Unmark(sent: string): string
  {
    ReplaceChar(ReplaceChar(sent, ' ', []), Marker, " ")
  }

  /** Every space `Unmark` leaves stands for one marker of its input, and every marker becomes one. */
  lemma UnmarkSpaces(sent: string)
    ensures Count(Unmark(sent), ' ') == Count(sent, Marker)
  {
    CountDelete(sent, ' ', Marker);
    CountSubstitute(ReplaceChar(sent, ' ', []), Marker, ' ');
  }

  /** `desentencepiece`: detokenise SentencePiece output into plain text. */
  function Desentencepiece(sent: string): (r: string)
    ensures Marker !in r
    ensures Trimmed(r)
  {
    CountStrip(Unmark(sent), Marker);
    Strip(Unmark(sent))
  }

  lemma UnmarkAppend(x: string, y: string)
    ensures Unmark(x + y) == Unmark(x) + Unmark(y)
  {
    ReplaceCharAppend(x, y, ' ', []);
    ReplaceCharAppend(ReplaceChar(x, ' ', []), ReplaceChar(y, ' ', []), Marker, " ");
  }

  /** Whitespace stays whitespace (or vanishes) under `Unmark`, since the marker is not whitespace. */
  lemma {:induction false} UnmarkSpace(a: string)
    requires AllSpace(a)
    ensures AllSpace(Unmark(a))
  {
    if a != [] {
      assert a == [a[0]] + a[1..];
      UnmarkAppend([a[0]], a[1..]);
      assert AllSpace(a[1..]) by {
        forall i | 0 <= i < |a[1..]| ensures IsSpace(a[1..][i]) {
          assert a[1..][i] == a[i + 1];
        }
      }
      UnmarkSpace(a[1..]);
      assert Unmark([a[0]]) == (if a[0] == ' ' then [] else [a[0]]);
    }
  }

  /** Every space in the output comes from a marker of the input: original spaces are deleted first. */
  lemma DesentencepieceSpaceBound(sent: string)
    ensures Count(Desentencepiece(sent), ' ') <= Count(sent, Marker)
  {
    UnmarkSpaces(sent);
    CountStrip(Unmark(sent), ' ');
  }

  /** Apart from whitespace and markers, the input's characters are kept, in order, none added. */
  lemma DesentencepieceKeepsText(sent: string)
    ensures Filter(Desentencepiece(sent), IsText) == Filter(sent, IsText)
  {
    assert Filter([], IsText) == [];
    assert Filter(" ", IsText) == [] by {
      assert " "[1..] == [];
    }
    FilterReplace(sent, ' ', [], IsText);
    FilterReplace(ReplaceChar(sent, ' ', []), Marker, " ", IsText);
    FilterStrip(Unmark(sent), IsText);
  }

  /** Stripping the input first changes nothing: `desentencepiece` strips after unmarking anyway. */
  lemma DesentencepieceIgnoresEdgeSpace(sent: string)
    ensures Desentencepiece(Strip(sent)) == Desentencepiece(sent)
  {
    var a, b := StripParts(sent);
    var m := Strip(sent);
    UnmarkAppend(a, m);
    UnmarkAppend(a + m, b);
    UnmarkSpace(a);
    UnmarkSpace(b);
    StripSpaceEnds(Unmark(a), Unmark(m), Unmark(b));
  }

  /** Each piece with its ASCII spaces deleted: `[p.replace(' ', '') for p in pieces]`. */
  function DeleteSpaces(pieces: seq<string>): (r: seq<string>)
    ensures |r| == |pieces|
  {
    if pieces == [] then [] else [ReplaceChar(pieces[0], ' ', [])] + DeleteSpaces(pieces[1..])
  }

  lemma UnmarkMarker()
    ensures Unmark([Marker]) == " "
  {
    ReplaceCharSingle(Marker, ' ', []);
    ReplaceCharSingle(Marker, Marker, " ");
  }

  /** Any character other than the marker unmarks as it is deleted-if-space. */
  lemma UnmarkOther(c: char)
    requires c != Marker
    ensures Unmark([c]) == ReplaceChar([c], ' ', []) == (if c == ' ' then [] else [c])
  {
    ReplaceCharSingle(c, ' ', []);
    if c != ' ' {
      ReplaceCharSingle(c, Marker, " ");
    }
  }

  /**
   `Unmark` in other terms: cut the input at its markers, delete the ASCII
   spaces of each segment, and join the segments with single spaces.
   */
  lemma {:induction false} UnmarkIsJoin(sent: string)
    ensures Unmark(sent) == Join(DeleteSpaces(Split(sent, Marker)), ' ')
  {
    if sent == [] {
      assert DeleteSpaces([[]]) == [[]];
    } else {
      var c, t := sent[0], sent[1..];
      assert sent == [c] + t;
      UnmarkIsJoin(t);
      UnmarkAppend([c], t);
      if c == Marker {
        UnmarkMarker();
        JoinMarkerStep(t);
      } else {
        UnmarkOther(c);
        JoinOtherStep(c, t);
      }
    }
  }

  /** A leading marker starts a new, empty segment: the joined segments gain a leading space. */
  lemma JoinMarkerStep(t: string)
    ensures Join(DeleteSpaces(Split([Marker] + t, Marker)), ' ') == " " + Join(DeleteSpaces(Split(t, Marker)), ' ')
  {
    var rest := Split(t, Marker);
    var d := DeleteSpaces(rest);
    assert ([Marker] + t)[0] == Marker && ([Marker] + t)[1..] == t;
    assert DeleteSpaces(Split([Marker] + t, Marker)) == [[]] + d by {
      assert Split([Marker] + t, Marker) == [[]] + rest;
      assert ([[]] + rest)[1..] == rest;
    }
    assert ([[]] + d)[1..] == d;
  }

  /** Any other leading character joins the first segment, deleted if it is a space. */
  lemma JoinOtherStep(c: char, t: string)
    requires c != Marker
    ensures Join(DeleteSpaces(Split([c] + t, Marker)), ' ') == ReplaceChar([c], ' ', []) + Join(DeleteSpaces(Split(t, Marker)), ' ')
  {
    var rest := Split(t, Marker);
    var head := ReplaceChar([c], ' ', []);
    var first := ReplaceChar(rest[0], ' ', []);
    var tail := DeleteSpaces(rest[1..]);
    assert DeleteSpaces(rest) == [first] + tail by {
      assert rest == [rest[0]] + rest[1..];
    }
    assert DeleteSpaces(Split([c] + t, Marker)) == [head + first] + tail by {
      assert ([c] + t)[0] == c && ([c] + t)[1..] == t;
      assert Split([c] + t, Marker) == [[c] + rest[0]] + rest[1..];
      assert ([[c] + rest[0]] + rest[1..])[1..] == rest[1..];
      ReplaceCharAppend([c], rest[0], ' ', []);
    }
    JoinConsHead(head, first, tail, ' ');
  }

  /**
   `desentencepiece` exactly, for every input: the marker-separated segments of
   the input, each with its ASCII spaces deleted, joined by single spaces and
   stripped. Other whitespace inside a segment (a tab, U+00A0, U+3000) stays.
   */
  lemma DesentencepieceExact(sent: string)
    ensures Desentencepiece(sent) == Strip(Join(DeleteSpaces(Split(sent, Marker)), ' '))
  {
    UnmarkIsJoin(sent);
  }

  /** `tok`: `sent.split(' ')`, one label per space-separated piece, empty pieces included. */
  function Tok(sent: string): (r: seq<string>)
    ensures |r| == Count(sent, ' ') + 1
    ensures forall i :: 0 <= i < |r| ==> ' ' !in r[i]
    ensures Join(r, ' ') == sent
  {
    JoinSplit(sent, ' ');
    Split(sent, ' ')
  }

  /** The other direction: `tok` recovers any non-empty list of space-free pieces from their join. */
  lemma TokJoin(parts: seq<string>)
    requires parts != []
    requires forall i :: 0 <= i < |parts| ==> ' ' !in parts[i]
    ensures Tok(Join(parts, ' ')) == parts
  {
    SplitJoin(parts, ' ');
  }

  /** One record of an LRP results file: the source and the hypothesis, both SentencePiece text. */
  datatype Record = Record(src: string, dst: string)

  /** One row of the sentence table: its `Id` and its `Sent`. */
  datatype Row = Row(id: nat, sent: string)

  /** Prepending `f(xs[0])` to the images of `xs[1..]` gives the images of `xs`. */
  lemma ConsMap<T>(xs: seq<T>, rest: seq<string>, f: T -> string)
    requires xs != [] && |rest| == |xs| - 1
    requires forall j :: 0 <= j < |rest| ==> rest[j] == f(xs[1..][j])
    ensures forall i :: 0 <= i < |xs| ==> ([f(xs[0])] + rest)[i] == f(xs[i])
  {
    forall i | 0 < i < |xs| ensures ([f(xs[0])] + rest)[i] == f(xs[i]) {
      assert xs[1..][i - 1] == xs[i];
    }
  }

  /** `[desentencepiece(x['src']) for x in data]` */
  function SrcTexts(data: seq<Record>): (texts: seq<string>)
    ensures |texts| == |data|
    ensures forall i :: 0 <= i < |data| ==> texts[i] == Desentencepiece(data[i].src)
  {
    if data == [] then []
    else
      var rest := SrcTexts(data[1..]);
      ConsMap(data, rest, (r: Record) => Desentencepiece(r.src));
      [Desentencepiece(data[0].src)] + rest
  }

  /** `enumerate(texts, start)` as table rows. */
  function Enumerate(texts: seq<string>, start: nat): (rows: seq<Row>)
    ensures |rows| == |texts|
    ensures forall i :: 0 <= i < |texts| ==> rows[i] == Row(start + i, texts[i])
  {
    if texts == [] then [] else [Row(start, texts[0])] + Enumerate(texts[1..], start + 1)
  }

  /** `get_src_sents`: the sentence table, row `i` holding `Id == i` and the detokenised source of record `i`. */
  function SrcSents(data: seq<Record>): (rows: seq<Row>)
    ensures |rows| == |data|
    ensures forall i :: 0 <= i < |data| ==> rows[i].id == i && rows[i].sent == Desentencepiece(data[i].src)
  {
    Enumerate(SrcTexts(data), 0)
  }

  /** A row of the table names, by its `Id`, the record it was built from. */
  lemma RowOfTable(data: seq<Record>, row: Row)
    requires row in SrcSents(data)
    ensures row.id < |data|
    ensures SrcSents(data)[row.id] == row
    ensures row.sent == Desentencepiece(data[row.id].src)
  {
    var i :| 0 <= i < |SrcSents(data)| && SrcSents(data)[i] == row;
    assert row.id == i;
  }

  /** `load_ref` on the lines of the file: `[desentencepiece(line.strip()) for line in lines]`. */
  function LoadRef(lines: seq<string>): (refs: seq<string>)
    ensures |refs| == |lines|
    ensures forall i :: 0 <= i < |lines| ==> refs[i] == Desentencepiece(Strip(lines[i]))
  {
    if lines == [] then []
    else
      var rest := LoadRef(lines[1..]);
      ConsMap(lines, rest, line => Desentencepiece(Strip(line)));
      [Desentencepiece(Strip(lines[0]))] + rest
  }

  /** Each reference is the plain detokenised line: the extra `strip` in `load_ref` changes nothing. */
  lemma LoadRefIsDetokenised(lines: seq<string>, i: nat)
    requires i < |lines|
    ensures LoadRef(lines)[i] == Desentencepiece(lines[i])
  {
    DesentencepieceIgnoresEdgeSpace(lines[i]);
  }

  /** The labels of one heatmap axis: `tok(sent)`, then `'<EOS>'` appended in place. */
  method AxisLabels(sent: string) returns (labels: seq<string>)
    ensures labels == Tok(sent) + [Eos]
    ensures |labels| == Count(sent, ' ') + 2
    ensures labels[|labels| - 1] == Eos
    ensures labels[..|labels| - 1] == Tok(sent)
    ensures Join(labels[..|labels| - 1], ' ') == sent
  {
    labels := Tok(sent);
    labels := labels + [Eos];
  }

  /** The tick labels of one heatmap: hypothesis tokens down the y axis, source tokens along the x axis. */
  datatype Ticks = Ticks(y: seq<string>, x: seq<string>)

  /** The label lists `gen_plot` builds for a record. */
  method GenPlot(rec: Record) returns (ticks: Ticks)
    ensures ticks.y == Tok(rec.dst) + [Eos]
    ensures ticks.x == Tok(rec.src) + [Eos]
    ensures |ticks.y| == Count(rec.dst, ' ') + 2 && |ticks.x| == Count(rec.src, ' ') + 2
  {
    var xtoks := AxisLabels(rec.dst);
    var ytoks := AxisLabels(rec.src);
    ticks := Ticks(xtoks, ytoks);
  }

  datatype Option<T> = None | Some(value: T)

  /** What the page shows for the selected sentence. */
  datatype Shown = Shown(id: nat, ref: string, baseHyp: string, augHyp: string, basePlot: Ticks, augPlot: Ticks)

  /** The `Id` of `row` is a valid index into all three lists the page reads with it. */
  predicate Selectable(base: seq<Record>, aug: seq<Record>, refs: seq<string>, row: Row)
  {
    row in SrcSents(base) && row.id < |refs| && row.id < |aug|
  }

  /**
   The main block once the table reports its selection `sel`: nothing is shown
   when no row is selected; otherwise the first selected row's `Id` indexes
   `refs`, `base` and `aug` without a bounds check.
   */
  method ShowSelection(base: seq<Record>, aug: seq<Record>, refs: seq<string>, sel: seq<Row>)
    returns (shown: Option<Shown>)
    requires sel != [] ==> Selectable(base, aug, refs, sel[0])
    ensures shown.None? <==> sel == []
    ensures shown.Some? ==> var id := sel[0].id;
      && id < |base|
      && sel[0].sent == Desentencepiece(base[id].src)
      && shown.value.id == id
      && shown.value.ref == refs[id]
      && shown.value.baseHyp == Desentencepiece(base[id].dst)
      && shown.value.augHyp == Desentencepiece(aug[id].dst)
      && shown.value.basePlot == Ticks(Tok(base[id].dst) + [Eos], Tok(base[id].src) + [Eos])
      && shown.value.augPlot == Ticks(Tok(aug[id].dst) + [Eos], Tok(aug[id].src) + [Eos])
  {
    shown := None;
    if |sel| != 0 {
      var id := sel[0].id;
      RowOfTable(base, sel[0]);
      var ref := refs[id];
      var baseHyp := Desentencepiece(base[id].dst);
      var augHyp := Desentencepiece(aug[id].dst);
      var baseFig := GenPlot(base[id]);
      var augFig := GenPlot(aug[id]);
      shown := Some(Shown(id, ref, baseHyp, augHyp, baseFig, augFig));
    }
  }

  /** Every row of the table can be selected exactly when `refs` and `aug` are at least as long as `base`. */
  lemma EveryRowSelectable(base: seq<Record>, aug: seq<Record>, refs: seq<string>)
    ensures (forall row :: row in SrcSents(base) ==> Selectable(base, aug, refs, row))
        <==> (|refs| >= |base| && |aug| >= |base|)
  {
    if |refs| >= |base| && |aug| >= |base| {
      forall row | row in SrcSents(base) ensures Selectable(base, aug, refs, row) {
        RowOfTable(base, row);
      }
    } else {
      var k := if |refs| < |base| then |refs| else |aug|;
      var row := SrcSents(base)[k];
      assert row in SrcSents(base) && row.id == k;
      assert !Selectable(base, aug, refs, row);
    }
  }
}
