/**
  Text fitting for the badge (`draw_scaled_text`): whitespace tokenising,
  the greedy line packing `split_text`, the widest-line scan and the binary
  search for the largest font size whose layout fits the box.

  Widths are abstract: `width(c)` is the advance of one character at the
  current font size and a string is as wide as the sum of its characters.
*/
module TextLayout {
  import Sequences

  // ---------------------------------------------------------------------
  // Tokenising: Python's `str.split()` with no argument

  /** Python's `str.isspace()` for one character. */
  predicate IsWhitespace(c: char)
  {
    var n := c as int;
    n in {9, 10, 11, 12, 13, 28, 29, 30, 31, 32, 133, 160, 5760, 8232, 8233, 8239, 8287, 12288}
    || 8192 <= n <= 8202
  }

  /** A token of `str.split()`: non-empty and free of whitespace. */
  predicate IsWord(w: string)
  {
    w != [] && forall i :: 0 <= i < |w| ==> !IsWhitespace(w[i])
  }

  /** Length of the leading run of non-whitespace characters. */
  function WordLength(s: string): (n: nat)
    ensures n <= |s|
    ensures forall i :: 0 <= i < n ==> !IsWhitespace(s[i])
    ensures n < |s| ==> IsWhitespace(s[n])
  {
    if s != [] && !IsWhitespace(s[0]) then 1 + WordLength(s[1..]) else 0
  }

  /** `text.split()`: the maximal runs of non-whitespace characters, in order. */
  function Words(s: string): (ws: seq<string>)
    ensures forall i :: 0 <= i < |ws| ==> IsWord(ws[i])
    decreases |s|
  {
    if s == [] then []
    else if IsWhitespace(s[0]) then Words(s[1..])
    else
      var n := WordLength(s);
      [s[..n]] + Words(s[n..])
  }

  /** A word on its own is a single token. */
  lemma WordsOfWord(w: string)
    requires IsWord(w)
    ensures Words(w) == [w]
  {
    var n := WordLength(w);
    assert n == |w|;
    assert w[..n] == w && w[n..] == [];
  }

  /** How far one step of `Words` advances: one whitespace character or one whole word. */
  function WordStep(s: string): (n: nat)
    requires s != []
    ensures 1 <= n <= |s|
  {
    if IsWhitespace(s[0]) then 1 else WordLength(s)
  }

  /** What one step of `Words` emits: nothing for whitespace, else the word at the front. */
  function WordHead(s: string): seq<string>
    requires s != []
  {
    if IsWhitespace(s[0]) then [] else [s[..WordLength(s)]]
  }

  lemma WordsStep(s: string)
    requires s != []
    ensures Words(s) == WordHead(s) + Words(s[WordStep(s)..])
  {
  }

  /** The leading word ends exactly at the first whitespace character. */
  lemma WordLengthUnique(s: string, n: nat)
    requires n <= |s| && forall i :: 0 <= i < n ==> !IsWhitespace(s[i])
    requires n < |s| ==> IsWhitespace(s[n])
    ensures WordLength(s) == n
  {
  }

  /** A cut at whitespace (or at the end) does not change the word at the front. */
  lemma WordLengthConcat(a: string, b: string)
    requires a != [] && (b == [] || IsWhitespace(a[|a| - 1]) || IsWhitespace(b[0]))
    ensures WordLength(a + b) == WordLength(a)
  {
    var n := WordLength(a);
    var s := a + b;
    assert forall i :: 0 <= i < n ==> !IsWhitespace(s[i]) by {
      forall i | 0 <= i < n ensures s[i] == a[i] { }
    }
    assert n < |s| ==> IsWhitespace(s[n]) by {
      if n < |a| {
        assert s[n] == a[n];
      } else if b != [] {
        assert !IsWhitespace(a[|a| - 1]);
        assert s[n] == b[0];
      }
    }
    WordLengthUnique(s, n);
  }

  lemma WordStepConcat(a: string, b: string)
    requires a != [] && (b == [] || IsWhitespace(a[|a| - 1]) || IsWhitespace(b[0]))
    ensures WordStep(a + b) == WordStep(a) && WordHead(a + b) == WordHead(a)
  {
    assert (a + b)[0] == a[0];
    WordLengthConcat(a, b);
    assert (a + b)[..WordLength(a)] == a[..WordLength(a)];
  }

  /** Tokenising `a + b` starts with the same step as tokenising `a`. */
  lemma WordsStepConcat(a: string, b: string)
    requires a != [] && (b == [] || IsWhitespace(a[|a| - 1]) || IsWhitespace(b[0]))
    ensures Words(a + b) == WordHead(a) + Words(a[WordStep(a)..] + b)
  {
    var n := WordStep(a);
    WordsStep(a + b);
    WordStepConcat(a, b);
    Sequences.DropConcat(a, b, n);
  }

  /** One step of `WordsConcat`. */
  lemma WordsConcatStep(a: string, b: string)
    requires a != [] && (b == [] || IsWhitespace(a[|a| - 1]) || IsWhitespace(b[0]))
    requires Words(a[WordStep(a)..] + b) == Words(a[WordStep(a)..]) + Words(b)
    ensures Words(a + b) == Words(a) + Words(b)
  {
    WordsStepConcat(a, b);
    WordsStep(a);
    Sequences.Glue(WordHead(a), Words(a[WordStep(a)..]), Words(b),
                   Words(a + b), Words(a), Words(a[WordStep(a)..] + b));
  }

  /**
    Tokens are maximal: text cut at whitespace (or at either end) splits into
    the tokens of each side, so no token spans the cut and none is split.
  */
  lemma {:induction false} WordsConcat(a: string, b: string)
    requires a == [] || b == [] || IsWhitespace(a[|a| - 1]) || IsWhitespace(b[0])
    ensures Words(a + b) == Words(a) + Words(b)
    decreases |a|
  {
    if a == [] {
      assert a + b == b;
    } else {
      var t := a[WordStep(a)..];
      assert t == [] || b == [] || IsWhitespace(t[|t| - 1]) || IsWhitespace(b[0]) by {
        if t != [] { assert t[|t| - 1] == a[|a| - 1]; }
      }
      WordsConcat(t, b);
      WordsConcatStep(a, b);
    }
  }

  /** The characters of `s` that are not whitespace, in order. */
  function Printable(s: string): string
  {
    if s == [] then [] else (if IsWhitespace(s[0]) then [] else [s[0]]) + Printable(s[1..])
  }

  /** Concatenation of a sequence of strings. */
  function Concat(ws: seq<string>): string
  {
    if ws == [] then [] else Concat(ws[..|ws| - 1]) + ws[|ws| - 1]
  }

  lemma {:induction false} ConcatPrepend(w: string, ws: seq<string>)
    ensures Concat([w] + ws) == w + Concat(ws)
  {
    if ws != [] {
      assert ([w] + ws)[..|ws|] == [w] + ws[..|ws| - 1];
      ConcatPrepend(w, ws[..|ws| - 1]);
    }
  }

  lemma {:induction false} PrintableOfWord(s: string, n: nat)
    requires n <= |s| && forall i :: 0 <= i < n ==> !IsWhitespace(s[i])
    ensures Printable(s) == s[..n] + Printable(s[n..])
  {
    if n > 0 {
      PrintableOfWord(s[1..], n - 1);
      assert s[1..][n - 1..] == s[n..];
      assert [s[0]] + s[1..][..n - 1] == s[..n];
    }
  }

  /** Joining the words back together gives the text without its whitespace. */
  lemma {:induction false} WordsCoverText(s: string)
    ensures Concat(Words(s)) == Printable(s)
    ensures Words(s) == [] <==> forall i :: 0 <= i < |s| ==> IsWhitespace(s[i])
    decreases |s|
  {
    if s != [] {
      if IsWhitespace(s[0]) {
        WordsCoverText(s[1..]);
        assert forall i :: 1 <= i < |s| ==> s[i] == s[1..][i - 1];
      } else {
        var n := WordLength(s);
        WordsCoverText(s[n..]);
        ConcatPrepend(s[..n], Words(s[n..]));
        PrintableOfWord(s, n);
      }
    }
  }

  // ---------------------------------------------------------------------
  // Lines and their widths

  /** `" ".join(ws)` */
  function Join(ws: seq<string>): string
  {
    if ws == [] then []
    else if |ws| == 1 then ws[0]
    else Join(ws[..|ws| - 1]) + " " + ws[|ws| - 1]
  }

  /** The string with its space characters removed. */
  function RemoveSpaces(s: string): string
  {
    if s == [] then [] else RemoveSpaces(s[..|s| - 1]) + (if s[|s| - 1] == ' ' then [] else [s[|s| - 1]])
  }

  /** The output lines with their spaces removed, run together. */
  function Unspaced(lines: seq<string>): string
  {
    if lines == [] then [] else Unspaced(lines[..|lines| - 1]) + RemoveSpaces(lines[|lines| - 1])
  }

  /** Width of a string: the sum of its characters' widths. */
  function TextWidth(width: char -> nat, s: string): nat
  {
    if s == [] then 0 else TextWidth(width, s[..|s| - 1]) + width(s[|s| - 1])
  }

  lemma {:induction false} TextWidthConcat(width: char -> nat, a: string, b: string)
    ensures TextWidth(width, a + b) == TextWidth(width, a) + TextWidth(width, b)
  {
    if b == [] {
      assert a + b == a;
    } else {
      assert (a + b)[..|a + b| - 1] == a + b[..|b| - 1];
      TextWidthConcat(width, a, b[..|b| - 1]);
    }
  }

  lemma {:induction false} RemoveSpacesConcat(a: string, b: string)
    ensures RemoveSpaces(a + b) == RemoveSpaces(a) + RemoveSpaces(b)
  {
    if b == [] {
      assert a + b == a;
    } else {
      assert (a + b)[..|a + b| - 1] == a + b[..|b| - 1];
      RemoveSpacesConcat(a, b[..|b| - 1]);
    }
  }

  lemma {:induction false} RemoveSpacesOfWord(w: string)
    requires ' ' !in w
    ensures RemoveSpaces(w) == w
  {
    if w != [] {
      RemoveSpacesOfWord(w[..|w| - 1]);
    }
  }

  lemma JoinAppend(ws: seq<string>, w: string)
    requires ws != []
    ensures Join(ws + [w]) == Join(ws) + " " + w
  {
    assert (ws + [w])[..|ws|] == ws;
  }

  lemma {:induction false} JoinUnspaced(ws: seq<string>)
    requires forall i :: 0 <= i < |ws| ==> ' ' !in ws[i]
    ensures RemoveSpaces(Join(ws)) == Concat(ws)
  {
    if |ws| == 1 {
      RemoveSpacesOfWord(ws[0]);
      assert ws[..0] == [];
    } else if |ws| > 1 {
      var init := ws[..|ws| - 1];
      JoinUnspaced(init);
      RemoveSpacesConcat(Join(init) + " ", ws[|ws| - 1]);
      RemoveSpacesConcat(Join(init), " ");
      RemoveSpacesOfWord(ws[|ws| - 1]);
      assert RemoveSpaces(" ") == [];
    }
  }

  lemma UnspacedAppendLine(lines: seq<string>, line: string)
    ensures Unspaced(lines + [line]) == Unspaced(lines) + RemoveSpaces(line)
  {
    assert (lines + [line])[..|lines|] == lines;
  }

  lemma {:induction false} UnspacedAppendParts(lines: seq<string>, parts: seq<string>)
    requires forall i :: 0 <= i < |parts| ==> ' ' !in parts[i]
    ensures Unspaced(lines + parts) == Unspaced(lines) + Concat(parts)
  {
    if parts == [] {
      assert lines + parts == lines;
    } else {
      var init, last := parts[..|parts| - 1], parts[|parts| - 1];
      assert parts == init + [last];
      assert lines + parts == (lines + init) + [last];
      calc {
        Unspaced(lines + parts);
        { UnspacedAppendLine(lines + init, last); }
        Unspaced(lines + init) + RemoveSpaces(last);
        { UnspacedAppendParts(lines, init); RemoveSpacesOfWord(last); }
        Unspaced(lines) + Concat(init) + last;
        { ConcatAppend(init, last); }
        Unspaced(lines) + Concat(parts);
      }
    }
  }


  lemma ConcatAppend(ws: seq<string>, w: string)
    ensures Concat(ws + [w]) == Concat(ws) + w
  {
    assert (ws + [w])[..|ws|] == ws;
  }

  lemma OneWordHasNoSpace(ws: seq<string>)
    requires |ws| == 1 && ' ' !in ws[0]
    ensures ' ' !in Join(ws)
  {
  }

  lemma JoinNonEmpty(ws: seq<string>)
    requires ws != [] && forall i :: 0 <= i < |ws| ==> ws[i] != []
    ensures Join(ws) != []
  {
  }

  lemma JoinWidthAppend(width: char -> nat, ws: seq<string>, w: string)
    requires ws != []
    ensures TextWidth(width, Join(ws + [w])) == TextWidth(width, Join(ws)) + width(' ') + TextWidth(width, w)
  {
    JoinAppend(ws, w);
    TextWidthConcat(width, Join(ws) + " ", w);
    TextWidthConcat(width, Join(ws), " ");
    assert TextWidth(width, " ") == width(' ') by {
      assert " "[..0] == [];
    }
  }

  // ---------------------------------------------------------------------
  // split_text as a fold: the reference the methods below are proved against

  /** The state of the character loop: finished pieces, the piece being built, the running width. */
  datatype Cutter = Cutter(parts: seq<string>, part: string, running: int)

  /**
    One character of an over-wide word: it joins the current piece while the
    running width stays within the box; otherwise it closes the current
    piece, if any, and starts the next one, the running width restarting at
    its own width.
  */
  function CutChar(width: char -> nat, areaWidth: int, s: Cutter, c: char): Cutter
  {
    if s.running + width(c) <= areaWidth then Cutter(s.parts, s.part + [c], s.running + width(c))
    else Cutter(if s.part != [] then s.parts + [s.part] else s.parts, [c], width(c))
  }

  /** The character loop after the characters of `prefix`, from the running width `startWidth`. */
  function CutPrefix(width: char -> nat, areaWidth: int, startWidth: int, prefix: string): Cutter
    decreases |prefix|
  {
    if prefix == [] then Cutter([], [], startWidth)
    else CutChar(width, areaWidth, CutPrefix(width, areaWidth, startWidth, prefix[..|prefix| - 1]), prefix[|prefix| - 1])
  }

  /** One more character is one more step of the character loop. */
  lemma CutPrefixStep(width: char -> nat, areaWidth: int, startWidth: int, word: string, j: nat)
    requires j < |word|
    ensures CutPrefix(width, areaWidth, startWidth, word[..j + 1])
         == CutChar(width, areaWidth, CutPrefix(width, areaWidth, startWidth, word[..j]), word[j])
  {
    assert word[..j + 1][..j] == word[..j];
  }

  /** The pieces once the loop is over: the last piece is kept when it is not empty. */
  function Pieces(s: Cutter): seq<string>
  {
    if s.part != [] then s.parts + [s.part] else s.parts
  }

  /** Where the first piece starts: at the running width handed in when its first character fits there, else at 0. */
  function FirstOffset(width: char -> nat, areaWidth: int, startWidth: int, word: string): int
  {
    if word != [] && startWidth + width(word[0]) <= areaWidth then startWidth else 0
  }

  /** The running width before piece `k`: `first` for the first piece, 0 for every later one. */
  function Offset(first: int, k: int): int
  {
    if k == 0 then first else 0
  }

  /**
    Greedy pieces: none is empty; each fits the box from its offset, unless it
    is a single character at offset 0; each but the last would overflow the box
    with the first character of the next; and `running` is the last piece's
    offset plus its width.
  */
  predicate GreedyPieces(width: char -> nat, areaWidth: int, first: int, pieces: seq<string>, running: int)
  {
    && pieces != []
    && (forall k :: 0 <= k < |pieces| ==> pieces[k] != [])
    && (forall k :: 0 <= k < |pieces| ==>
          Offset(first, k) + TextWidth(width, pieces[k]) <= areaWidth || (|pieces[k]| == 1 && Offset(first, k) == 0))
    && (forall k :: 0 <= k < |pieces| - 1 ==>
          Offset(first, k) + TextWidth(width, pieces[k]) + width(pieces[k + 1][0]) > areaWidth)
    && running == Offset(first, |pieces| - 1) + TextWidth(width, pieces[|pieces| - 1])
  }

  /**
    The character loop cuts a word into greedy pieces that spell it, and the
    running width it hands back is the last piece's offset plus its width.
  */
  lemma {:induction false} CutIsGreedy(width: char -> nat, areaWidth: int, startWidth: int, word: string)
    requires word != []
    ensures CutPrefix(width, areaWidth, startWidth, word).part != []
    ensures Concat(Pieces(CutPrefix(width, areaWidth, startWidth, word))) == word
    ensures GreedyPieces(width, areaWidth, FirstOffset(width, areaWidth, startWidth, word),
                         Pieces(CutPrefix(width, areaWidth, startWidth, word)), CutPrefix(width, areaWidth, startWidth, word).running)
    decreases |word|
  {
    var init, c := word[..|word| - 1], word[|word| - 1];
    var t := CutPrefix(width, areaWidth, startWidth, init);
    assert CutPrefix(width, areaWidth, startWidth, word) == CutChar(width, areaWidth, t, c);
    assert word == init + [c];
    if init == [] {
      assert t == Cutter([], [], startWidth);
      CutFirst(width, areaWidth, startWidth, c);
    } else {
      CutIsGreedy(width, areaWidth, startWidth, init);
      assert FirstOffset(width, areaWidth, startWidth, init) == FirstOffset(width, areaWidth, startWidth, word) by {
        assert init[0] == word[0];
      }
      CutStep(width, areaWidth, FirstOffset(width, areaWidth, startWidth, init), t, init, c);
    }
  }

  /** The first character always makes a piece of its own, at the running width handed in if it fits there. */
  lemma CutFirst(width: char -> nat, areaWidth: int, startWidth: int, c: char)
    ensures CutChar(width, areaWidth, Cutter([], [], startWidth), c).part != []
    ensures Concat(Pieces(CutChar(width, areaWidth, Cutter([], [], startWidth), c))) == [c]
    ensures GreedyPieces(width, areaWidth, FirstOffset(width, areaWidth, startWidth, [c]),
                         Pieces(CutChar(width, areaWidth, Cutter([], [], startWidth), c)),
                         CutChar(width, areaWidth, Cutter([], [], startWidth), c).running)
  {
    var empty: string := [];
    assert empty + [c] == [c];
    assert Pieces(CutChar(width, areaWidth, Cutter([], empty, startWidth), c)) == [[c]];
    assert TextWidth(width, [c]) == width(c) by { assert [c][..0] == []; }
    assert Concat([[c]]) == [c] by { assert [[c]][..0] == []; }
  }

  /** One character more keeps the pieces greedy and spelling what has been read. */
  lemma CutStep(width: char -> nat, areaWidth: int, first: int, t: Cutter, init: string, c: char)
    requires t.part != [] && Concat(Pieces(t)) == init
    requires GreedyPieces(width, areaWidth, first, Pieces(t), t.running)
    ensures CutChar(width, areaWidth, t, c).part != []
    ensures Concat(Pieces(CutChar(width, areaWidth, t, c))) == init + [c]
    ensures GreedyPieces(width, areaWidth, first, Pieces(CutChar(width, areaWidth, t, c)), CutChar(width, areaWidth, t, c).running)
  {
    var s := CutChar(width, areaWidth, t, c);
    var ps := Pieces(t);
    assert ps == t.parts + [t.part];
    assert TextWidth(width, [c]) == width(c) by { assert [c][..0] == []; }
    if t.running + width(c) <= areaWidth {
      assert Pieces(s) == t.parts + [t.part + [c]];
      CutGrow(width, areaWidth, first, t.parts, t.part, t.running, c);
      ConcatAppend(t.parts, t.part);
      ConcatAppend(t.parts, t.part + [c]);
      Sequences.Glue(Concat(t.parts), t.part, [c], Concat(Pieces(s)), init, t.part + [c]);
    } else {
      assert Pieces(s) == ps + [[c]];
      CutClose(width, areaWidth, first, ps, t.running, c);
      ConcatAppend(ps, [c]);
    }
  }

  /** A character that fits lengthens the last piece and keeps the pieces greedy. */
  lemma CutGrow(width: char -> nat, areaWidth: int, first: int, parts: seq<string>, part: string, running: int, c: char)
    requires GreedyPieces(width, areaWidth, first, parts + [part], running)
    requires running + width(c) <= areaWidth
    ensures GreedyPieces(width, areaWidth, first, parts + [part + [c]], running + width(c))
  {
    var ps, ps' := parts + [part], parts + [part + [c]];
    TextWidthConcat(width, part, [c]);
    assert TextWidth(width, [c]) == width(c) by { assert [c][..0] == []; }
    assert ps[|parts|] == part;
    forall k | 0 <= k < |ps'|
      ensures ps'[k] != []
      ensures Offset(first, k) + TextWidth(width, ps'[k]) <= areaWidth || (|ps'[k]| == 1 && Offset(first, k) == 0)
    {
      if k < |parts| {
        assert ps'[k] == ps[k];
      }
    }
    forall k | 0 <= k < |ps'| - 1
      ensures Offset(first, k) + TextWidth(width, ps'[k]) + width(ps'[k + 1][0]) > areaWidth
    {
      assert ps'[k] == ps[k];
      assert ps'[k + 1][0] == ps[k + 1][0];
    }
  }

  /** A character that does not fit closes the last piece and starts a new one at offset 0. */
  lemma CutClose(width: char -> nat, areaWidth: int, first: int, ps: seq<string>, running: int, c: char)
    requires GreedyPieces(width, areaWidth, first, ps, running)
    requires running + width(c) > areaWidth
    requires TextWidth(width, [c]) == width(c)
    ensures GreedyPieces(width, areaWidth, first, ps + [[c]], width(c))
  {
    var ps' := ps + [[c]];
    forall k | 0 <= k < |ps'|
      ensures ps'[k] != []
      ensures Offset(first, k) + TextWidth(width, ps'[k]) <= areaWidth || (|ps'[k]| == 1 && Offset(first, k) == 0)
    {
      if k < |ps| {
        assert ps'[k] == ps[k];
      }
    }
    forall k | 0 <= k < |ps'| - 1
      ensures Offset(first, k) + TextWidth(width, ps'[k]) + width(ps'[k + 1][0]) > areaWidth
    {
      assert ps'[k] == ps[k];
      if k + 1 < |ps| {
        assert ps'[k + 1] == ps[k + 1];
      }
    }
  }

  /** The state of the word loop: emitted lines, the pending words, the running width. */
  datatype Layout = Layout(lines: seq<string>, line: seq<string>, running: int)

  /**
    One word of `split_text`: cut it when it is wider than the box and
    nothing is pending, extend the pending line when it is empty or the word
    fits after a space, otherwise emit the pending line and open a new one.
  */
  function Place(width: char -> nat, areaWidth: int, s: Layout, word: string): Layout
  {
    var wordWidth := TextWidth(width, word);
    if wordWidth > areaWidth && s.line == [] then
      var cut := CutPrefix(width, areaWidth, s.running, word);
      Layout(s.lines + Pieces(cut), [], cut.running)
    else if s.line == [] || s.running + width(' ') + wordWidth <= areaWidth then
      Layout(s.lines, s.line + [word], s.running + wordWidth + width(' '))
    else
      Layout(s.lines + [Join(s.line)], [word], wordWidth)
  }

  /** The word loop after the words `ws`. */
  function PlaceAll(width: char -> nat, areaWidth: int, ws: seq<string>): Layout
    decreases |ws|
  {
    if ws == [] then Layout([], [], 0)
    else Place(width, areaWidth, PlaceAll(width, areaWidth, ws[..|ws| - 1]), ws[|ws| - 1])
  }

  /** One more word is one more step of the word loop. */
  lemma PlaceAllStep(width: char -> nat, areaWidth: int, ws: seq<string>, i: nat)
    requires i < |ws|
    ensures PlaceAll(width, areaWidth, ws[..i + 1]) == Place(width, areaWidth, PlaceAll(width, areaWidth, ws[..i]), ws[i])
  {
    assert ws[..i + 1][..i] == ws[..i];
  }

  /** `split_text(font)`: every word placed, then the pending line emitted if there is one. */
  function Wrap(width: char -> nat, areaWidth: int, text: string): seq<string>
  {
    var s := PlaceAll(width, areaWidth, Words(text));
    if s.line != [] then s.lines + [Join(s.line)] else s.lines
  }

  /**
    A text whose words fit on one line, counting the extra space width the
    loop adds after the first word, comes out as that one line.
  */
  lemma WrapOneLine(width: char -> nat, areaWidth: int, text: string)
    requires Words(text) != []
    requires TextWidth(width, Join(Words(text))) + width(' ') <= areaWidth
    ensures Wrap(width, areaWidth, text) == [Join(Words(text))]
  {
    var ws := Words(text);
    PlaceAllOneLine(width, areaWidth, ws, |ws|);
    assert ws[..|ws|] == ws;
  }

  /** While the words fit on one line they all stay pending, the running width their joined width plus one space. */
  lemma {:induction false} PlaceAllOneLine(width: char -> nat, areaWidth: int, ws: seq<string>, i: nat)
    requires 1 <= i <= |ws|
    requires TextWidth(width, Join(ws)) + width(' ') <= areaWidth
    ensures PlaceAll(width, areaWidth, ws[..i]) == Layout([], ws[..i], TextWidth(width, Join(ws[..i])) + width(' '))
  {
    var pre, w := ws[..i - 1], ws[i - 1];
    assert ws[..i] == pre + [w];
    PlaceAllStep(width, areaWidth, ws, i - 1);
    JoinWidthPrefix(width, ws, i);
    var s := PlaceAll(width, areaWidth, pre);
    if i == 1 {
      assert pre == [];
      assert s == Layout([], [], 0);
    } else {
      PlaceAllOneLine(width, areaWidth, ws, i - 1);
    }
    PlaceOnOneLine(width, areaWidth, s, pre, w);
  }

  /** One more word that keeps the joined line and a space within the box joins the pending line. */
  lemma PlaceOnOneLine(width: char -> nat, areaWidth: int, s: Layout, pre: seq<string>, w: string)
    requires s == Layout([], pre, if pre == [] then 0 else TextWidth(width, Join(pre)) + width(' '))
    requires TextWidth(width, Join(pre + [w])) + width(' ') <= areaWidth
    ensures Place(width, areaWidth, s, w) == Layout([], pre + [w], TextWidth(width, Join(pre + [w])) + width(' '))
  {
    if pre == [] {
      assert pre + [w] == [w];
    } else {
      JoinWidthAppend(width, pre, w);
      PendingLineEnds(width, areaWidth, s, w);
    }
  }

  /** Joining fewer of the words never makes the line wider. */
  lemma {:induction false} JoinWidthPrefix(width: char -> nat, ws: seq<string>, i: nat)
    requires 1 <= i <= |ws|
    ensures TextWidth(width, Join(ws[..i])) <= TextWidth(width, Join(ws))
    decreases |ws| - i
  {
    if i < |ws| {
      JoinWidthPrefix(width, ws, i + 1);
      assert ws[..i] + [ws[i]] == ws[..i + 1];
      JoinWidthAppend(width, ws[..i], ws[i]);
    } else {
      assert ws[..i] == ws;
    }
  }

  /**
    A pending line is ended only when the next word, after a space, would
    take the running width past the box; it is then emitted as it stands and
    the word opens the next line at its own width. Otherwise the word joins
    the line and the running width grows by the word and a space. A word
    wider than the box always ends a pending line and is left uncut.
  */
  lemma PendingLineEnds(width: char -> nat, areaWidth: int, s: Layout, word: string)
    requires s.line != []
    ensures Place(width, areaWidth, s, word).lines != s.lines
        <==> s.running + width(' ') + TextWidth(width, word) > areaWidth
    ensures Place(width, areaWidth, s, word).lines != s.lines ==>
      Place(width, areaWidth, s, word) == Layout(s.lines + [Join(s.line)], [word], TextWidth(width, word))
    ensures Place(width, areaWidth, s, word).lines == s.lines ==>
      Place(width, areaWidth, s, word) == Layout(s.lines, s.line + [word], s.running + TextWidth(width, word) + width(' '))
    ensures s.running >= 0 && TextWidth(width, word) > areaWidth ==>
      Place(width, areaWidth, s, word) == Layout(s.lines + [Join(s.line)], [word], TextWidth(width, word))
  {
  }

  /**
    With nothing pending a word is never refused. One wider than the box is
    cut into greedy pieces starting from the running width the previous cut
    left behind, the pieces become lines, and the running width after the
    last piece is carried over to the next word. Any other word opens the
    line, its width counted together with a space.
  */
  lemma PlaceOnEmptyLine(width: char -> nat, areaWidth: int, s: Layout, word: string)
    requires s.line == [] && word != []
    ensures var t := Place(width, areaWidth, s, word);
      TextWidth(width, word) > areaWidth ==>
        && t.line == [] && |s.lines| < |t.lines| && t.lines[..|s.lines|] == s.lines
        && Concat(t.lines[|s.lines|..]) == word
        && GreedyPieces(width, areaWidth, FirstOffset(width, areaWidth, s.running, word), t.lines[|s.lines|..], t.running)
    ensures TextWidth(width, word) <= areaWidth ==>
      Place(width, areaWidth, s, word) == Layout(s.lines, [word], s.running + TextWidth(width, word) + width(' '))
  {
    if TextWidth(width, word) > areaWidth {
      CutIsGreedy(width, areaWidth, s.running, word);
      var ps := Pieces(CutPrefix(width, areaWidth, s.running, word));
      assert (s.lines + ps)[..|s.lines|] == s.lines;
      assert (s.lines + ps)[|s.lines|..] == ps;
    }
  }

  // ---------------------------------------------------------------------
  // split_text

  /**
    The character split of `split_text` for one over-wide word: characters
    are added to the current piece while the running width stays within the
    box; the running width starts from `startWidth`, whatever the previous
    word left there, and the final running width is handed back.
  */
  method CutWord(word: string, width: char -> nat, areaWidth: int, startWidth: int)
    returns (parts: seq<string>, endWidth: int)
    requires ' ' !in word && startWidth >= 0
    ensures Concat(parts) == word
    ensures word != [] ==> parts != []
    ensures PiecesOk(width, areaWidth, parts)
    ensures endWidth >= 0
    ensures parts == Pieces(CutPrefix(width, areaWidth, startWidth, word))
    ensures endWidth == CutPrefix(width, areaWidth, startWidth, word).running
    ensures word != [] ==> GreedyPieces(width, areaWidth, FirstOffset(width, areaWidth, startWidth, word), parts, endWidth)
  {
    var currentWidth := startWidth;
    parts := [];
    var part: string := "";
    for j := 0 to |word|
      invariant Cutter(parts, part, currentWidth) == CutPrefix(width, areaWidth, startWidth, word[..j])
    {
      var c := word[j];
      CutPrefixStep(width, areaWidth, startWidth, word, j);
      var charWidth := width(c);
      if currentWidth + charWidth <= areaWidth {
        part := part + [c];
        currentWidth := currentWidth + charWidth;
      } else {
        if part != [] {
          parts := parts + [part];
        }
        part := [c];
        currentWidth := charWidth;
      }
    }
    assert word[..|word|] == word;
    CutPrefixCutting(width, areaWidth, startWidth, word);
    if part != [] {
      parts := AddPiece(width, areaWidth, parts, part);
    }
    endWidth := currentWidth;
    if word != [] {
      CutIsGreedy(width, areaWidth, startWidth, word);
    }
  }

  /** The character loop keeps `Cutting` true after every prefix of a word without spaces. */
  lemma {:induction false} CutPrefixCutting(width: char -> nat, areaWidth: int, startWidth: int, prefix: string)
    requires ' ' !in prefix && startWidth >= 0
    ensures Cutting(width, areaWidth, prefix, CutPrefix(width, areaWidth, startWidth, prefix).parts,
                    CutPrefix(width, areaWidth, startWidth, prefix).part, CutPrefix(width, areaWidth, startWidth, prefix).running)
    decreases |prefix|
  {
    if prefix != [] {
      var init, c := prefix[..|prefix| - 1], prefix[|prefix| - 1];
      assert prefix == init + [c];
      assert c != ' ' && ' ' !in init by {
        assert c in prefix;
        forall x | x in init ensures x in prefix { }
      }
      CutPrefixCutting(width, areaWidth, startWidth, init);
      var t := CutPrefix(width, areaWidth, startWidth, init);
      assert CutPrefix(width, areaWidth, startWidth, prefix) == CutChar(width, areaWidth, t, c);
      CutCharCutting(width, areaWidth, init, t, c);
    }
  }

  /** One step of the character loop keeps `Cutting` true. */
  lemma CutCharCutting(width: char -> nat, areaWidth: int, prefix: string, t: Cutter, c: char)
    requires Cutting(width, areaWidth, prefix, t.parts, t.part, t.running)
    requires c != ' '
    ensures var r := CutChar(width, areaWidth, t, c); Cutting(width, areaWidth, prefix + [c], r.parts, r.part, r.running)
  {
    if t.running + width(c) <= areaWidth {
      CutExtend(width, areaWidth, prefix, t.parts, t.part, t.running, c);
    } else {
      CutBreak(width, areaWidth, prefix, t.parts, t.part, t.running, c);
      if t.part != [] {
        assert CutChar(width, areaWidth, t, c) == Cutter(AddPiece(width, areaWidth, t.parts, t.part), [c], width(c));
      }
    }
  }

  /**
    The character loop of `CutWord` after reading `prefix`: the finished
    pieces and the current piece spell `prefix`, the pieces are sound, the
    current piece has no space, the running width bounds its width, and it
    fits the box once it has two characters.
  */
  predicate Cutting(width: char -> nat, areaWidth: int, prefix: string, parts: seq<string>, part: string, currentWidth: int)
  {
    && Concat(parts) + part == prefix
    && PiecesOk(width, areaWidth, parts)
    && ' ' !in part
    && currentWidth >= 0
    && TextWidth(width, part) <= currentWidth
    && (|part| >= 2 ==> TextWidth(width, part) <= areaWidth)
    && (prefix != [] ==> parts != [] || part != [])
  }

  /** A character that still fits joins the current piece. */
  lemma CutExtend(width: char -> nat, areaWidth: int, prefix: string, parts: seq<string>, part: string,
                  currentWidth: int, c: char)
    requires Cutting(width, areaWidth, prefix, parts, part, currentWidth)
    requires c != ' ' && currentWidth + width(c) <= areaWidth
    ensures Cutting(width, areaWidth, prefix + [c], parts, part + [c], currentWidth + width(c))
  {
    assert (part + [c])[..|part|] == part;
    Sequences.Glue(Concat(parts), part, [c], Concat(parts) + (part + [c]), prefix, part + [c]);
  }

  /** A character that does not fit closes the current piece, if any, and starts the next. */
  lemma CutBreak(width: char -> nat, areaWidth: int, prefix: string, parts: seq<string>, part: string,
                 currentWidth: int, c: char)
    requires Cutting(width, areaWidth, prefix, parts, part, currentWidth)
    requires c != ' '
    ensures part != [] ==>
      (PieceOk(width, areaWidth, part)
       && Cutting(width, areaWidth, prefix + [c], AddPiece(width, areaWidth, parts, part), [c], width(c)))
    ensures part == [] ==> Cutting(width, areaWidth, prefix + [c], parts, [c], width(c))
  {
    assert TextWidth(width, [c]) == width(c) by { assert [c][..0] == []; }
    if part != [] {
      var parts' := AddPiece(width, areaWidth, parts, part);
      assert Concat(parts') + [c] == prefix + [c];
    } else {
      assert Concat(parts) == prefix;
    }
  }

  /** A piece of a cut word: not empty, no space, within the box unless a single character. */
  predicate PieceOk(width: char -> nat, areaWidth: int, piece: string)
  {
    piece != [] && ' ' !in piece && (|piece| >= 2 ==> TextWidth(width, piece) <= areaWidth)
  }

  predicate PiecesOk(width: char -> nat, areaWidth: int, parts: seq<string>)
  {
    forall k :: 0 <= k < |parts| ==> PieceOk(width, areaWidth, parts[k])
  }

  /** `parts.append(part)` in the character loop, keeping the pieces sound and their text. */
  function AddPiece(width: char -> nat, areaWidth: int, parts: seq<string>, piece: string): (parts': seq<string>)
    requires PiecesOk(width, areaWidth, parts) && PieceOk(width, areaWidth, piece)
    ensures PiecesOk(width, areaWidth, parts') && parts' != []
    ensures Concat(parts') == Concat(parts) + piece
  {
    ConcatAppend(parts, piece);
    parts + [piece]
  }

  /**
    One output line is sound: it is not empty; if it contains a space (it
    holds two or more words) it fits the box; a piece of a cut word holds no
    space and fits the box when it has two or more characters.
  */
  predicate LineOk(width: char -> nat, areaWidth: int, line: string, isFragment: bool)
  {
    && line != []
    && (' ' in line ==> TextWidth(width, line) <= areaWidth)
    && (isFragment ==> ' ' !in line && (|line| >= 2 ==> TextWidth(width, line) <= areaWidth))
  }

  predicate LinesOk(width: char -> nat, areaWidth: int, lines: seq<string>, fragment: seq<bool>)
  {
    |fragment| == |lines| && forall k :: 0 <= k < |lines| ==> LineOk(width, areaWidth, lines[k], fragment[k])
  }

  lemma LinesOkMeans(width: char -> nat, areaWidth: int, lines: seq<string>, fragment: seq<bool>)
    requires LinesOk(width, areaWidth, lines, fragment)
    ensures forall k :: 0 <= k < |lines| ==> lines[k] != []
    ensures forall k :: 0 <= k < |lines| && ' ' in lines[k] ==> TextWidth(width, lines[k]) <= areaWidth
    ensures forall k :: 0 <= k < |lines| && fragment[k] ==>
      ' ' !in lines[k] && (|lines[k]| >= 2 ==> TextWidth(width, lines[k]) <= areaWidth)
  {
    forall k | 0 <= k < |lines| ensures LineOk(width, areaWidth, lines[k], fragment[k]) {
    }
  }

  /** A token as `split_text` relies on it: non-empty, with no space character. */
  predicate Spaceless(w: string) { w != [] && ' ' !in w }

  lemma WordIsSpaceless(w: string)
    requires IsWord(w)
    ensures Spaceless(w)
  {
  }

  /**
    What `split_text` keeps true between words: the emitted lines are sound,
    the pending words are tokens, the running width bounds the pending
    line's width, and a pending line of two or more words fits the box.
  */
  predicate Packing(width: char -> nat, areaWidth: int, lines: seq<string>, fragment: seq<bool>,
                    currentLine: seq<string>, currentWidth: int)
  {
    && LinesOk(width, areaWidth, lines, fragment)
    && (forall k :: 0 <= k < |currentLine| ==> Spaceless(currentLine[k]))
    && currentWidth >= 0
    && (currentLine != [] ==> TextWidth(width, Join(currentLine)) <= currentWidth)
    && (|currentLine| >= 2 ==> TextWidth(width, Join(currentLine)) <= areaWidth)
  }

  /** Emitting the pending words as one line keeps the lines sound and the text intact. */
  lemma EmitLine(width: char -> nat, areaWidth: int, lines: seq<string>, fragment: seq<bool>, words: seq<string>)
    requires LinesOk(width, areaWidth, lines, fragment)
    requires words != [] && forall k :: 0 <= k < |words| ==> Spaceless(words[k])
    requires |words| >= 2 ==> TextWidth(width, Join(words)) <= areaWidth
    ensures LinesOk(width, areaWidth, lines + [Join(words)], fragment + [false])
    ensures Unspaced(lines + [Join(words)]) == Unspaced(lines) + Concat(words)
  {
    JoinUnspaced(words);
    UnspacedAppendLine(lines, Join(words));
    JoinNonEmpty(words);
    if |words| == 1 {
      OneWordHasNoSpace(words);
    }
    assert LineOk(width, areaWidth, Join(words), false);
    var lines', fragment' := lines + [Join(words)], fragment + [false];
    forall k | 0 <= k < |lines'| ensures LineOk(width, areaWidth, lines'[k], fragment'[k]) {
      if k < |lines| {
        assert lines'[k] == lines[k] && fragment'[k] == fragment[k];
      }
    }
  }

  /** The fragment marks of `n` pieces of a cut word. */
  function Fragments(n: nat): (marks: seq<bool>)
    ensures |marks| == n && forall k :: 0 <= k < n ==> marks[k]
  {
    seq(n, _ => true)
  }

  /** Emitting the pieces of a cut word keeps the lines sound and the text intact. */
  lemma EmitParts(width: char -> nat, areaWidth: int, lines: seq<string>, fragment: seq<bool>, parts: seq<string>)
    requires LinesOk(width, areaWidth, lines, fragment)
    requires PiecesOk(width, areaWidth, parts)
    ensures LinesOk(width, areaWidth, lines + parts, fragment + Fragments(|parts|))
    ensures Unspaced(lines + parts) == Unspaced(lines) + Concat(parts)
  {
    UnspacedAppendParts(lines, parts);
    var lines', fragment' := lines + parts, fragment + Fragments(|parts|);
    forall k | 0 <= k < |lines'| ensures LineOk(width, areaWidth, lines'[k], fragment'[k]) {
      if k < |lines| {
        assert lines'[k] == lines[k] && fragment'[k] == fragment[k];
      } else {
        assert lines'[k] == parts[k - |lines|] && fragment'[k];
      }
    }
  }

  /** Adding a word to the pending line keeps the running width an upper bound. */
  lemma AddWord(width: char -> nat, areaWidth: int, line: seq<string>, word: string, currentWidth: int)
    requires currentWidth >= 0
    requires line != [] ==> TextWidth(width, Join(line)) <= currentWidth
    requires line != [] ==> currentWidth + width(' ') + TextWidth(width, word) <= areaWidth
    requires |line| >= 2 ==> TextWidth(width, Join(line)) <= areaWidth
    ensures TextWidth(width, Join(line + [word])) <= currentWidth + TextWidth(width, word) + width(' ')
    ensures |line + [word]| >= 2 ==> TextWidth(width, Join(line + [word])) <= areaWidth
  {
    if line != [] {
      JoinWidthAppend(width, line, word);
    } else {
      assert line + [word] == [word];
    }
  }

  /**
    One iteration of `split_text`'s loop over the words: cut an over-wide
    word when nothing is pending, extend the pending line when it is empty or
    the word still fits after a space, otherwise emit the pending line and
    start a new one with the word.
  */
  method PlaceWord(word: string, width: char -> nat, areaWidth: int,
                   lines: seq<string>, ghost fragment: seq<bool>, currentLine: seq<string>, currentWidth: int)
    returns (lines': seq<string>, ghost fragment': seq<bool>, currentLine': seq<string>, currentWidth': int)
    requires Spaceless(word)
    requires Packing(width, areaWidth, lines, fragment, currentLine, currentWidth)
    ensures Packing(width, areaWidth, lines', fragment', currentLine', currentWidth')
    ensures Unspaced(lines') + Concat(currentLine') == Unspaced(lines) + Concat(currentLine) + word
    ensures lines' != [] || currentLine' != []
    ensures Layout(lines', currentLine', currentWidth') == Place(width, areaWidth, Layout(lines, currentLine, currentWidth), word)
  {
    var spaceWidth := width(' ');
    var wordWidth := TextWidth(width, word);
    if wordWidth > areaWidth && currentLine == [] {
      var parts;
      parts, currentWidth' := CutWord(word, width, areaWidth, currentWidth);
      lines', fragment', currentLine' := lines + parts, fragment + Fragments(|parts|), [];
      PlaceCut(width, areaWidth, lines, fragment, currentWidth, word, parts, currentWidth');
      return;
    }
    if currentLine == [] || currentWidth + spaceWidth + wordWidth <= areaWidth {
      lines', fragment', currentLine', currentWidth' := lines, fragment, currentLine + [word], currentWidth + wordWidth + spaceWidth;
      PlaceExtend(width, areaWidth, lines, fragment, currentLine, currentWidth, word);
      return;
    }
    lines', fragment', currentLine', currentWidth' := lines + [Join(currentLine)], fragment + [false], [word], wordWidth;
    PlaceBreak(width, areaWidth, lines, fragment, currentLine, currentWidth, word);
  }

  /** The cut branch of `PlaceWord`: the pieces become lines and the running width is the cut's. */
  lemma PlaceCut(width: char -> nat, areaWidth: int, lines: seq<string>, fragment: seq<bool>, currentWidth: int,
                 word: string, parts: seq<string>, endWidth: int)
    requires Spaceless(word) && TextWidth(width, word) > areaWidth
    requires Packing(width, areaWidth, lines, fragment, [], currentWidth)
    requires Concat(parts) == word
    requires PiecesOk(width, areaWidth, parts)
    requires parts != [] && endWidth >= 0
    requires parts == Pieces(CutPrefix(width, areaWidth, currentWidth, word))
    requires endWidth == CutPrefix(width, areaWidth, currentWidth, word).running
    ensures Packing(width, areaWidth, lines + parts, fragment + Fragments(|parts|), [], endWidth)
    ensures Unspaced(lines + parts) + Concat([]) == Unspaced(lines) + Concat([]) + word
    ensures lines + parts != []
    ensures Layout(lines + parts, [], endWidth) == Place(width, areaWidth, Layout(lines, [], currentWidth), word)
  {
    EmitParts(width, areaWidth, lines, fragment, parts);
    PlaceCutShape(width, areaWidth, Layout(lines, [], currentWidth), word);
  }

  /** With nothing pending, a word wider than the box is placed by cutting it. */
  lemma PlaceCutShape(width: char -> nat, areaWidth: int, s: Layout, word: string)
    requires s.line == [] && TextWidth(width, word) > areaWidth
    ensures Place(width, areaWidth, s, word)
         == Layout(s.lines + Pieces(CutPrefix(width, areaWidth, s.running, word)), [],
                   CutPrefix(width, areaWidth, s.running, word).running)
  {
  }

  /** The branch of `PlaceWord` that adds the word to the pending line. */
  lemma PlaceExtend(width: char -> nat, areaWidth: int, lines: seq<string>, fragment: seq<bool>,
                    currentLine: seq<string>, currentWidth: int, word: string)
    requires Spaceless(word)
    requires Packing(width, areaWidth, lines, fragment, currentLine, currentWidth)
    requires !(TextWidth(width, word) > areaWidth && currentLine == [])
    requires currentLine == [] || currentWidth + width(' ') + TextWidth(width, word) <= areaWidth
    ensures Packing(width, areaWidth, lines, fragment, currentLine + [word], currentWidth + TextWidth(width, word) + width(' '))
    ensures Unspaced(lines) + Concat(currentLine + [word]) == Unspaced(lines) + Concat(currentLine) + word
    ensures Layout(lines, currentLine + [word], currentWidth + TextWidth(width, word) + width(' '))
         == Place(width, areaWidth, Layout(lines, currentLine, currentWidth), word)
  {
    AddWord(width, areaWidth, currentLine, word, currentWidth);
    ConcatAppend(currentLine, word);
  }

  /** The branch of `PlaceWord` that emits the pending line and opens a new one with the word. */
  lemma PlaceBreak(width: char -> nat, areaWidth: int, lines: seq<string>, fragment: seq<bool>,
                   currentLine: seq<string>, currentWidth: int, word: string)
    requires Spaceless(word)
    requires Packing(width, areaWidth, lines, fragment, currentLine, currentWidth)
    requires currentLine != [] && currentWidth + width(' ') + TextWidth(width, word) > areaWidth
    ensures Packing(width, areaWidth, lines + [Join(currentLine)], fragment + [false], [word], TextWidth(width, word))
    ensures Unspaced(lines + [Join(currentLine)]) + Concat([word]) == Unspaced(lines) + Concat(currentLine) + word
    ensures Layout(lines + [Join(currentLine)], [word], TextWidth(width, word))
         == Place(width, areaWidth, Layout(lines, currentLine, currentWidth), word)
  {
    EmitLine(width, areaWidth, lines, fragment, currentLine);
    assert Concat([word]) == word by { assert [word][..0] == []; }
  }

  /**
    The greedy packing of `split_text`, quirks included: a word wider than
    the box is cut into characters only when the current line is empty; the
    running width carries over from the last fragment to what follows; the
    space width is counted even after the first word of the text; a wide
    word after a non-empty line starts a line of its own, uncut.

    `fragment[k]` records that `lines[k]` is a piece of a cut word.
  */
  method SplitText(text: string, width: char -> nat, areaWidth: int)
    returns (lines: seq<string>, ghost fragment: seq<bool>)
    ensures |fragment| == |lines|
    ensures forall k :: 0 <= k < |lines| ==> lines[k] != []
    ensures Unspaced(lines) == Concat(Words(text)) == Printable(text)
    ensures lines == [] <==> Words(text) == []
    ensures lines == [] <==> forall i :: 0 <= i < |text| ==> IsWhitespace(text[i])
    ensures forall k :: 0 <= k < |lines| && ' ' in lines[k] ==> TextWidth(width, lines[k]) <= areaWidth
    ensures forall k :: 0 <= k < |lines| && fragment[k] ==>
      ' ' !in lines[k] && (|lines[k]| >= 2 ==> TextWidth(width, lines[k]) <= areaWidth)
    ensures lines == Wrap(width, areaWidth, text)
    ensures Words(text) != [] && TextWidth(width, Join(Words(text))) + width(' ') <= areaWidth ==>
      lines == [Join(Words(text))]
  {
    var currentLine, currentWidth;
    lines, fragment, currentLine, currentWidth := PlaceWords(Words(text), width, areaWidth);
    ghost var placed, placedFragment := lines, fragment;
    if currentLine != [] {
      lines := lines + [Join(currentLine)];
      fragment := fragment + [false];
    }
    FlushLine(width, areaWidth, text, placed, placedFragment, currentLine, currentWidth);
  }

  /**
    The loop of `split_text` over the words: each word is placed in turn,
    starting from no lines, nothing pending and a running width of 0.
  */
  method PlaceWords(words: seq<string>, width: char -> nat, areaWidth: int)
    returns (lines: seq<string>, ghost fragment: seq<bool>, currentLine: seq<string>, currentWidth: int)
    requires forall k :: 0 <= k < |words| ==> IsWord(words[k])
    ensures Packing(width, areaWidth, lines, fragment, currentLine, currentWidth)
    ensures Unspaced(lines) + Concat(currentLine) == Concat(words)
    ensures words == [] ==> lines == [] && currentLine == []
    ensures words != [] ==> lines != [] || currentLine != []
    ensures Layout(lines, currentLine, currentWidth) == PlaceAll(width, areaWidth, words)
  {
    lines, fragment := [], [];
    currentLine, currentWidth := [], 0;
    for i := 0 to |words|
      invariant Packing(width, areaWidth, lines, fragment, currentLine, currentWidth)
      invariant Unspaced(lines) + Concat(currentLine) == Concat(words[..i])
      invariant i == 0 ==> lines == [] && currentLine == []
      invariant i > 0 ==> lines != [] || currentLine != []
      invariant Layout(lines, currentLine, currentWidth) == PlaceAll(width, areaWidth, words[..i])
    {
      WordIsSpaceless(words[i]);
      ghost var before := Layout(lines, currentLine, currentWidth);
      ghost var text := Unspaced(lines) + Concat(currentLine);
      lines, fragment, currentLine, currentWidth :=
        PlaceWord(words[i], width, areaWidth, lines, fragment, currentLine, currentWidth);
      PlaceWordsStep(width, areaWidth, words, i, before, text, Layout(lines, currentLine, currentWidth),
                     Unspaced(lines) + Concat(currentLine));
    }
    assert words[..|words|] == words;
  }

  /** The bookkeeping of one iteration of `PlaceWords`: the fold and the text advance by `words[i]`. */
  lemma PlaceWordsStep(width: char -> nat, areaWidth: int, words: seq<string>, i: nat,
                       before: Layout, text: string, after: Layout, text': string)
    requires i < |words|
    requires before == PlaceAll(width, areaWidth, words[..i]) && text == Concat(words[..i])
    requires after == Place(width, areaWidth, before, words[i]) && text' == text + words[i]
    ensures after == PlaceAll(width, areaWidth, words[..i + 1]) && text' == Concat(words[..i + 1])
  {
    PlaceAllStep(width, areaWidth, words, i);
    assert words[..i + 1] == words[..i] + [words[i]];
    ConcatAppend(words[..i], words[i]);
  }

  /**
    The end of `split_text`: once every word is placed, emitting the pending
    line, if any, gives the lines `Wrap` describes, with the properties
    `SplitText` promises.
  */
  lemma FlushLine(width: char -> nat, areaWidth: int, text: string,
                  lines: seq<string>, fragment: seq<bool>, currentLine: seq<string>, currentWidth: int)
    requires Packing(width, areaWidth, lines, fragment, currentLine, currentWidth)
    requires Unspaced(lines) + Concat(currentLine) == Concat(Words(text))
    requires Words(text) == [] ==> lines == [] && currentLine == []
    requires Words(text) != [] ==> lines != [] || currentLine != []
    requires Layout(lines, currentLine, currentWidth) == PlaceAll(width, areaWidth, Words(text))
    ensures var lines', fragment' := if currentLine != [] then lines + [Join(currentLine)] else lines,
                                     if currentLine != [] then fragment + [false] else fragment;
      && |fragment'| == |lines'|
      && (forall k :: 0 <= k < |lines'| ==> lines'[k] != [])
      && Unspaced(lines') == Concat(Words(text)) == Printable(text)
      && (lines' == [] <==> Words(text) == [])
      && (lines' == [] <==> forall i :: 0 <= i < |text| ==> IsWhitespace(text[i]))
      && (forall k :: 0 <= k < |lines'| && ' ' in lines'[k] ==> TextWidth(width, lines'[k]) <= areaWidth)
      && (forall k :: 0 <= k < |lines'| && fragment'[k] ==>
            ' ' !in lines'[k] && (|lines'[k]| >= 2 ==> TextWidth(width, lines'[k]) <= areaWidth))
      && lines' == Wrap(width, areaWidth, text)
      && (Words(text) != [] && TextWidth(width, Join(Words(text))) + width(' ') <= areaWidth ==>
            lines' == [Join(Words(text))])
  {
    var lines', fragment' := lines, fragment;
    if currentLine != [] {
      EmitLine(width, areaWidth, lines, fragment, currentLine);
      lines', fragment' := lines + [Join(currentLine)], fragment + [false];
    }
    LinesOkMeans(width, areaWidth, lines', fragment');
    WordsCoverText(text);
    if Words(text) != [] && TextWidth(width, Join(Words(text))) + width(' ') <= areaWidth {
      WrapOneLine(width, areaWidth, text);
    }
  }
}
