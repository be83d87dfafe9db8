/**
 A reference for what `desentencepiece` undoes: SentencePiece output for a
 sentence is its words, each cut into pieces, the first piece of every word
 prefixed with the marker, all pieces joined by single spaces. Detokenising
 that output gives back the words joined by single spaces, and `tok` then
 gives back the words themselves.
 */
module SentencePiece {
  import opened PyStr
  import opened LrpContrast

  /** Every character of `s` is text. */
  predicate AllText(s: string)
  {
    forall i :: 0 <= i < |s| ==> IsText(s[i])
  }

  /**
   A word as a list of pieces of text that glue to a non-empty word. A piece
   may be empty: a bare marker piece followed by the word (`▁ x`) is a word.
   */
  predicate CleanWord(pieces: seq<string>)
  {
    (forall j :: 0 <= j < |pieces| ==> AllText(pieces[j])) && Concat(pieces) != []
  }

  /** A sentence as a list of clean words. */
  predicate WellFormed(words: seq<seq<string>>)
  {
    forall i :: 0 <= i < |words| ==> CleanWord(words[i])
  }

  /** The pieces of one word, the first carrying the word-boundary marker. */
  function MarkWord(pieces: seq<string>): seq<string>
  {
    if pieces == [] then [] else [[Marker] + pieces[0]] + pieces[1..]
  }

  /** The pieces of all words, in order. */
  function MarkAll(words: seq<seq<string>>): seq<string>
  {
    if words == [] then [] else MarkWord(words[0]) + MarkAll(words[1..])
  }

  /** The SentencePiece text of a sentence: its marked pieces joined by spaces. */
  function Encode(words: seq<seq<string>>): string
  {
    Join(MarkAll(words), ' ')
  }

  /** `''.join(pieces)` */
  function Concat(pieces: seq<string>): string
  {
    if pieces == [] then [] else pieces[0] + Concat(pieces[1..])
  }

  /** The surface words of a sentence: each word's pieces glued together. */
  function Surface(words: seq<seq<string>>): (r: seq<string>)
    ensures |r| == |words|
  {
    if words == [] then [] else [Concat(words[0])] + Surface(words[1..])
  }

  lemma {:induction false} ConcatAppend(xs: seq<string>, ys: seq<string>)
    ensures Concat(xs + ys) == Concat(xs) + Concat(ys)
  {
    if xs == [] {
      assert xs + ys == ys;
    } else {
      assert (xs + ys)[0] == xs[0];
      assert (xs + ys)[1..] == xs[1..] + ys;
      ConcatAppend(xs[1..], ys);
    }
  }

  /** Pieces of text glue to text. */
  lemma {:induction false} ConcatText(pieces: seq<string>)
    requires forall j :: 0 <= j < |pieces| ==> AllText(pieces[j])
    ensures AllText(Concat(pieces))
  {
    if pieces != [] {
      ConcatText(pieces[1..]);
      var c := Concat(pieces);
      assert c == pieces[0] + Concat(pieces[1..]);
      forall i | 0 <= i < |c| ensures IsText(c[i]) {
        if i >= |pieces[0]| {
          assert c[i] == Concat(pieces[1..])[i - |pieces[0]|];
        }
      }
    }
  }

  /** Text passes through `Unmark` unchanged. */
  lemma UnmarkText(s: string)
    requires AllText(s)
    ensures Unmark(s) == s
  {
    assert !IsText(' ') && !IsText(Marker);
    ReplaceCharAbsent(s, ' ', []);
    ReplaceCharAbsent(s, Marker, " ");
  }

  /** The separating spaces vanish under `Unmark`. */
  lemma {:induction false} UnmarkJoin(ps: seq<string>)
    ensures Unmark(Join(ps, ' ')) == Unmark(Concat(ps))
  {
    if |ps| == 1 {
      assert Concat(ps) == ps[0] + Concat(ps[1..]);
      assert ps[0] + [] == ps[0];
    } else if |ps| > 1 {
      var tail := Join(ps[1..], ' ');
      var rest := Concat(ps[1..]);
      UnmarkJoin(ps[1..]);
      assert Join(ps, ' ') == ps[0] + (" " + tail);
      assert Concat(ps) == ps[0] + rest;
      UnmarkAppend(ps[0], " " + tail);
      UnmarkAppend(" ", tail);
      UnmarkOther(' ');
      assert Unmark(" " + tail) == Unmark(tail);
      UnmarkAppend(ps[0], rest);
    }
  }

  /** Unmarking a marked word gives a space, then the word. */
  lemma UnmarkWord(pieces: seq<string>)
    requires CleanWord(pieces)
    ensures Unmark(Concat(MarkWord(pieces))) == " " + Concat(pieces)
  {
    var mw := MarkWord(pieces);
    var c := Concat(pieces);
    assert c == pieces[0] + Concat(pieces[1..]);
    assert mw[0] == [Marker] + pieces[0] && mw[1..] == pieces[1..];
    assert Concat(mw) == [Marker] + c;
    ConcatText(pieces);
    UnmarkAppend([Marker], c);
    UnmarkText(c);
    UnmarkMarker();
  }

  /** The first word of a well-formed sentence is clean, and the other words form a well-formed sentence. */
  lemma WellFormedCons(words: seq<seq<string>>)
    requires words != [] && WellFormed(words)
    ensures CleanWord(words[0]) && WellFormed(words[1..])
  {
    forall i | 0 <= i < |words[1..]| ensures CleanWord(words[1..][i]) {
      assert words[1..][i] == words[i + 1];
    }
  }

  /** Unmarking the pieces of a sentence begins with a space and the first word. */
  lemma UnmarkFirstWord(words: seq<seq<string>>)
    requires words != [] && CleanWord(words[0])
    ensures Unmark(Concat(MarkAll(words))) == " " + Concat(words[0]) + Unmark(Concat(MarkAll(words[1..])))
  {
    var a := Concat(MarkWord(words[0]));
    var b := Concat(MarkAll(words[1..]));
    assert MarkAll(words) == MarkWord(words[0]) + MarkAll(words[1..]);
    ConcatAppend(MarkWord(words[0]), MarkAll(words[1..]));
    UnmarkAppend(a, b);
    UnmarkWord(words[0]);
  }

  /** Unmarking the pieces of a sentence gives a leading space, then the words joined by spaces. */
  lemma {:induction false} UnmarkWords(words: seq<seq<string>>)
    requires words != [] && WellFormed(words)
    ensures Unmark(Concat(MarkAll(words))) == " " + Join(Surface(words), ' ')
  {
    var rest := words[1..];
    var c0 := Concat(words[0]);
    var u := Unmark(Concat(MarkAll(rest)));
    assert Unmark(Concat(MarkAll(words))) == " " + c0 + u by {
      WellFormedCons(words);
      UnmarkFirstWord(words);
    }
    var ws := Surface(words);
    assert ws == [c0] + Surface(rest);
    if rest == [] {
      assert u == [] by {
        assert MarkAll(rest) == [];
      }
      assert Join(ws, ' ') == c0;
      assert " " + c0 + u == " " + c0;
    } else {
      var j := Join(Surface(rest), ' ');
      assert u == " " + j by {
        WellFormedCons(words);
        UnmarkWords(rest);
      }
      assert Join(ws, ' ') == c0 + [' '] + j by {
        assert |ws| > 1 && ws[1..] == Surface(rest);
      }
      SeqAssoc(" ", c0, " " + j);
      SeqAssoc(c0, " ", j);
    }
  }

  /** The words of a well-formed sentence, joined by spaces, have text at both ends. */
  lemma JoinedWordsTrimmed(words: seq<seq<string>>)
    requires words != [] && WellFormed(words)
    ensures Trimmed(Join(Surface(words), ' '))
  {
    var ws := Surface(words);
    var j := Join(ws, ' ');
    JoinEnds(ws, ' ');
    SurfaceText(words);
    var first := ws[0];
    var last := ws[|ws| - 1];
    assert j[0] == j[..|first|][0] == first[0];
    assert j[|j| - 1] == j[|j| - |last|..][|last| - 1] == last[|last| - 1];
  }

  /** Every surface word is non-empty text. */
  lemma {:induction false} SurfaceText(words: seq<seq<string>>)
    requires WellFormed(words)
    ensures forall i :: 0 <= i < |words| ==> Surface(words)[i] != [] && AllText(Surface(words)[i])
  {
    if words != [] {
      ConcatText(words[0]);
      assert WellFormed(words[1..]) by {
        forall i | 0 <= i < |words[1..]| ensures words[1..][i] == words[i + 1] { }
      }
      SurfaceText(words[1..]);
      forall i | 1 <= i < |words| ensures Surface(words)[i] == Surface(words[1..])[i - 1] { }
    }
  }

  /** Detokenising SentencePiece output gives back the words joined by spaces, and `tok` splits them apart again. */
  lemma RoundTrip(words: seq<seq<string>>)
    requires words != [] && WellFormed(words)
    ensures Desentencepiece(Encode(words)) == Join(Surface(words), ' ')
    ensures Tok(Desentencepiece(Encode(words))) == Surface(words)
  {
    var j := Join(Surface(words), ' ');
    assert Unmark(Encode(words)) == " " + j by {
      UnmarkJoin(MarkAll(words));
      UnmarkWords(words);
    }
    assert Desentencepiece(Encode(words)) == j by {
      JoinedWordsTrimmed(words);
      assert AllSpace(" ") && AllSpace([]);
      StripExact(" ", j, []);
      assert " " + j + [] == " " + j;
    }
    assert Tok(j) == Surface(words) by {
      SurfaceText(words);
      assert !IsText(' ');
      TokJoin(Surface(words));
    }
  }
}
