/** `format_minutes`: a fixed Markdown header with the date, then one bullet
    per sentence of the transcript. A sentence ends after every Japanese full
    stop `。` and at every line break; each one is stripped of surrounding
    whitespace, and blank ones are dropped. */
module Minutes {
  import opened Text

  /** The Japanese full stop. */
  const Stop := '。'

  /** `text.replace("。", "。\n")`: a line break after every full stop. */
  function BreakAfterStops(text: string): (broken: string)
    ensures |text| <= |broken|
    ensures forall i :: 0 <= i < |broken| && broken[i] == Stop ==> i + 1 < |broken| && broken[i + 1] == '\n'
  {
    if text == [] then []
    else (if text[0] == Stop then [Stop, '\n'] else [text[0]]) + BreakAfterStops(text[1..])
  }

  /** The sentences `format_minutes` iterates over, before stripping:
      `text.replace("。", "。\n").split("\n")`. */
  function Pieces(text: string): (pieces: seq<string>)
    ensures |pieces| >= 1
  {
    Split(BreakAfterStops(text), '\n')
  }

  predicate EndsWithStop(s: string) {
    s != [] && s[|s| - 1] == Stop
  }

  /** A full stop, if any, is the last character. */
  predicate StopOnlyAtEnd(s: string) {
    forall j :: 0 <= j < |s| - 1 ==> s[j] != Stop
  }

  /** How the pieces of a text start, one character at a time: a line break
      ends a piece and is dropped, a full stop ends a piece and is kept, any
      other character joins the piece that follows it. */
  lemma PiecesCons(c: char, t: string)
    ensures Pieces([c] + t)
         == if c == '\n' then [[]] + Pieces(t)
            else if c == Stop then [[Stop]] + Pieces(t)
            else [[c] + Pieces(t)[0]] + Pieces(t)[1..]
  {
    var b := BreakAfterStops(t);
    assert ([c] + t)[1..] == t;
    if c == Stop {
      assert BreakAfterStops([c] + t) == [Stop] + (['\n'] + b);
      SplitCons(Stop, ['\n'] + b, '\n');
      SplitCons('\n', b, '\n');
      var after := Split(['\n'] + b, '\n');
      assert after[0] == [] && after[1..] == Split(b, '\n');
      assert [Stop] + after[0] == [Stop];
    } else {
      assert BreakAfterStops([c] + t) == [c] + b;
      SplitCons(c, b, '\n');
    }
  }

  /** Puts pieces back together: a piece ending in a full stop was cut right
      after that stop, any other piece was cut at a line break. */
  function Rejoin(pieces: seq<string>): string
    requires |pieces| >= 1
  {
    if |pieces| == 1 then pieces[0]
    else pieces[0] + (if EndsWithStop(pieces[0]) then [] else "\n") + Rejoin(pieces[1..])
  }

  /** Every piece is free of line breaks, and a full stop can only end it. */
  lemma {:induction false} PiecesShape(text: string)
    ensures forall i :: 0 <= i < |Pieces(text)| ==> '\n' !in Pieces(text)[i]
    ensures forall i :: 0 <= i < |Pieces(text)| ==> StopOnlyAtEnd(Pieces(text)[i])
  {
    if text != [] {
      var c, t := text[0], text[1..];
      assert text == [c] + t;
      PiecesShape(t);
      PiecesCons(c, t);
      if c != '\n' && c != Stop {
        var head := [c] + Pieces(t)[0];
        forall j | 0 <= j < |head| - 1 ensures head[j] != Stop {
          if j > 0 { assert head[j] == Pieces(t)[0][j - 1]; }
        }
        assert Pieces(text)[1..] == Pieces(t)[1..];
      }
    }
  }

  /** Nothing is lost or reordered: the pieces put back together give the
      transcript, so every piece cut at a full stop ends in that stop. */
  lemma {:induction false} PiecesRejoin(text: string)
    ensures Rejoin(Pieces(text)) == text
  {
    if text != [] {
      var c, t := text[0], text[1..];
      assert text == [c] + t;
      PiecesRejoin(t);
      PiecesCons(c, t);
      var rest := Pieces(t);
      if c == '\n' {
        assert Rejoin(Pieces(text)) == [] + "\n" + Rejoin(rest);
      } else if c == Stop {
        assert Rejoin(Pieces(text)) == [Stop] + [] + Rejoin(rest);
      } else {
        var head := [c] + rest[0];
        assert EndsWithStop(head) <==> EndsWithStop(rest[0]);
        if |rest| > 1 {
          Reassociate([c], rest[0], if EndsWithStop(rest[0]) then [] else "\n", Rejoin(rest[1..]));
        }
      }
    }
  }

  /** The bullet texts: every piece stripped, blank ones dropped, in order. */
  function Bodies(pieces: seq<string>): (bodies: seq<string>)
    ensures |bodies| <= |pieces|
    ensures forall k :: 0 <= k < |bodies| ==> bodies[k] != []
  {
    if pieces == [] then [] else Body(pieces[0]) + Bodies(pieces[1..])
  }

  /** The bullet text of one piece, if it is not blank. */
  function Body(piece: string): (body: seq<string>)
    ensures |body| <= 1
    ensures body == [] <==> AllSpace(piece)
    ensures forall b :: b in body ==> b == Strip(piece)
  {
    var body := Strip(piece);
    if body == [] then [] else [body]
  }

  /** Text made of the given lines, each ended by a line break. */
  function Lines(lines: seq<string>): string {
    if lines == [] then [] else lines[0] + "\n" + Lines(lines[1..])
  }

  /** Reading line-ended text back with `split`: the lines, then whatever
      follows them. */
  lemma {:induction false} SplitLines(lines: seq<string>, rest: string)
    requires forall k :: 0 <= k < |lines| ==> '\n' !in lines[k]
    ensures Split(Lines(lines) + rest, '\n') == lines + Split(rest, '\n')
  {
    if lines == [] {
      assert Lines(lines) + rest == rest;
    } else {
      var x, tail := lines[0], Lines(lines[1..]);
      SplitLines(lines[1..], rest);
      assert Lines(lines) + rest == x + ['\n'] + (tail + rest) by {
        Reassociate(x + ['\n'], tail, rest, []);
      }
      SplitAtSeparator(x, tail + rest, '\n');
      SplitNoSeparator(x, '\n');
      calc {
        Split(Lines(lines) + rest, '\n');
        [x] + (lines[1..] + Split(rest, '\n'));
        { Reassociate([x], lines[1..], Split(rest, '\n'), []); }
        [x] + lines[1..] + Split(rest, '\n');
        { assert [x] + lines[1..] == lines; }
        lines + Split(rest, '\n');
      }
    }
  }

  /** The bullet line of each text, without its line break. */
  function BulletTexts(bodies: seq<string>): seq<string> {
    seq(|bodies|, k requires 0 <= k < |bodies| => "- " + bodies[k])
  }

  /** The Markdown bullet lines for the given texts. */
  function Bullets(bodies: seq<string>): (bullets: string)
    ensures bullets == Lines(BulletTexts(bodies))
  {
    if bodies == [] then []
    else
      assert BulletTexts(bodies)[0] == "- " + bodies[0];
      assert BulletTexts(bodies)[1..] == BulletTexts(bodies[1..]);
      "- " + bodies[0] + "\n" + Bullets(bodies[1..])
  }

  /** The lines of the header, without their line breaks. */
  function HeaderLines(date: string): seq<string> {
    ["# 議事録", "", "## 日時", date, "", "## 議事内容", ""]
  }

  lemma LinesFrom(lines: seq<string>, i: nat)
    requires i < |lines|
    ensures Lines(lines[i..]) == lines[i] + "\n" + Lines(lines[i + 1..])
  {
    assert lines[i..][1..] == lines[i + 1..];
  }

  /** The header text, line by line. */
  lemma HeaderAsLines(date: string)
    ensures "# 議事録\n\n" + "## 日時\n" + date + "\n\n" + "## 議事内容\n\n" == Lines(HeaderLines(date))
  {
    var h := HeaderLines(date);
    assert h[7..] == [];
    LinesFrom(h, 6);
    LinesFrom(h, 5);
    LinesFrom(h, 4);
    LinesFrom(h, 3);
    LinesFrom(h, 2);
    LinesFrom(h, 1);
    LinesFrom(h, 0);
    assert h[0..] == h;
    assert Lines(h[4..]) == "\n## 議事内容\n\n";
    assert Lines(h[2..]) == "## 日時\n" + date + "\n\n## 議事内容\n\n";
  }

  /** The fixed header: the title "minutes", the "date and time" section with
      the date, and the "proceedings" section heading, as seven lines. */
  function Header(date: string): (header: string)
    ensures header == Lines(HeaderLines(date))
  {
    HeaderAsLines(date);
    "# 議事録\n\n" + "## 日時\n" + date + "\n\n" + "## 議事内容\n\n"
  }

  /** Appending a piece appends its bullet text, if it has one. */
  lemma {:induction false} BodiesSnoc(pieces: seq<string>, p: string)
    ensures Bodies(pieces + [p]) == Bodies(pieces) + Bodies([p])
  {
    if pieces != [] {
      BodiesSnoc(pieces[1..], p);
      var x, rest := pieces[0], pieces[1..];
      assert (pieces + [p])[0] == x;
      assert (pieces + [p])[1..] == rest + [p];
      calc {
        Bodies(pieces + [p]);
        Body(x) + Bodies(rest + [p]);
        Body(x) + (Bodies(rest) + Bodies([p]));
        { Reassociate(Body(x), Bodies(rest), Bodies([p]), []); }
        Body(x) + Bodies(rest) + Bodies([p]);
        Bodies(pieces) + Bodies([p]);
      }
    }
  }

  lemma {:induction false} BulletsAppend(xs: seq<string>, ys: seq<string>)
    ensures Bullets(xs + ys) == Bullets(xs) + Bullets(ys)
  {
    if xs != [] {
      BulletsAppend(xs[1..], ys);
      assert (xs + ys)[0] == xs[0];
      assert (xs + ys)[1..] == xs[1..] + ys;
      var line := "- " + xs[0] + "\n";
      calc {
        Bullets(xs + ys);
        line + Bullets(xs[1..] + ys);
        line + (Bullets(xs[1..]) + Bullets(ys));
        { Reassociate(line, Bullets(xs[1..]), Bullets(ys), []); }
        line + Bullets(xs[1..]) + Bullets(ys);
        Bullets(xs) + Bullets(ys);
      }
    } else {
      assert xs + ys == ys;
    }
  }

  /** One more piece adds its bullet line, if it is not blank. */
  lemma BulletsSnoc(pieces: seq<string>, p: string)
    ensures Bullets(Bodies(pieces + [p]))
         == Bullets(Bodies(pieces)) + (if Strip(p) == [] then [] else "- " + Strip(p) + "\n")
  {
    BodiesSnoc(pieces, p);
    BulletsAppend(Bodies(pieces), Body(p));
    assert Bodies([p]) == Body(p) + Bodies([]);
    assert Body(p) + [] == Body(p);
    if Strip(p) != [] {
      assert Bullets([Strip(p)]) == "- " + Strip(p) + "\n" + [];
    }
  }

  lemma TakeOneMore<T>(s: seq<T>, i: nat)
    requires i < |s|
    ensures s[..i + 1] == s[..i] + [s[i]]
  {
  }

  lemma AppendLine(h: string, b: string, s: string)
    ensures h + (b + ("- " + s + "\n")) == h + b + "- " + s + "\n"
  {
  }

  /** The step of the formatting loop: the text built so far, with the bullet
      line of the next sentence if it has one. */
  lemma FormattedStep(header: string, sentences: seq<string>, i: nat, formatted: string)
    requires i < |sentences|
    requires formatted == header + Bullets(Bodies(sentences[..i]))
    ensures header + Bullets(Bodies(sentences[..i + 1]))
         == if Strip(sentences[i]) == [] then formatted else formatted + "- " + Strip(sentences[i]) + "\n"
  {
    var p := sentences[i];
    TakeOneMore(sentences, i);
    BulletsSnoc(sentences[..i], p);
    if Strip(p) != [] {
      AppendLine(header, Bullets(Bodies(sentences[..i])), Strip(p));
    } else {
      assert Bullets(Bodies(sentences[..i])) + [] == Bullets(Bodies(sentences[..i]));
    }
  }

  /** `format_minutes(text)` with the clock reading passed in as `date`. */
  method FormatMinutes(text: string, date: string) returns (formatted: string)
    ensures formatted == Header(date) + Bullets(Bodies(Pieces(text)))
  {
    formatted := "# 議事録\n\n";
    formatted := formatted + "## 日時\n" + date + "\n\n";
    formatted := formatted + "## 議事内容\n\n";
    ghost var header := formatted;
    var sentences := Split(BreakAfterStops(text), '\n');
    for i := 0 to |sentences|
      invariant formatted == header + Bullets(Bodies(sentences[..i]))
    {
      var sentence := Strip(sentences[i]);
      FormattedStep(header, sentences, i, formatted);
      if sentence != [] {
        formatted := formatted + "- " + sentence + "\n";
      }
    }
    assert sentences[..|sentences|] == sentences;
  }

  /** The results of `f` on `xs`, concatenated in order. */
  function Collect<T, U>(xs: seq<T>, f: T -> seq<U>): seq<U> {
    if xs == [] then [] else f(xs[0]) + Collect(xs[1..], f)
  }

  /** Positions of `xs` where `f` gives something, in increasing order. */
  function Selected<T, U>(xs: seq<T>, f: T -> seq<U>): seq<nat> {
    if xs == [] then []
    else
      var later := Selected(xs[1..], f);
      (if f(xs[0]) == [] then [] else [0]) + seq(|later|, k requires 0 <= k < |later| => later[k] + 1)
  }

  /** The selected positions lie in `xs` and increase strictly. */
  lemma {:induction false} SelectedIncreasing<T, U>(xs: seq<T>, f: T -> seq<U>)
    ensures forall k :: 0 <= k < |Selected(xs, f)| ==> Selected(xs, f)[k] < |xs|
    ensures forall k, l :: 0 <= k < l < |Selected(xs, f)| ==> Selected(xs, f)[k] < Selected(xs, f)[l]
  {
    if xs != [] {
      SelectedIncreasing(xs[1..], f);
    }
  }

  /** Every position where `f` gives something is selected. */
  lemma {:induction false} SelectedComplete<T, U>(xs: seq<T>, f: T -> seq<U>)
    ensures forall j :: 0 <= j < |xs| && f(xs[j]) != [] ==> j in Selected(xs, f)
  {
    if xs != [] {
      var rest := xs[1..];
      SelectedComplete(rest, f);
      var later := Selected(rest, f);
      var first: seq<nat> := if f(xs[0]) == [] then [] else [0];
      var idx := first + seq(|later|, k requires 0 <= k < |later| => later[k] + 1);
      forall j | 0 <= j < |xs| && f(xs[j]) != [] ensures j in idx {
        if j > 0 {
          assert xs[j] == rest[j - 1];
          var m :| 0 <= m < |later| && later[m] == j - 1;
          assert idx[|first| + m] == j;
        }
      }
    }
  }

  /** When `f` gives at most one value, `Collect` holds exactly the values at
      the selected positions, in the same order. */
  lemma {:induction false} CollectSelected<T, U>(xs: seq<T>, f: T -> seq<U>)
    requires forall x :: |f(x)| <= 1
    ensures |Selected(xs, f)| == |Collect(xs, f)|
    ensures forall k :: 0 <= k < |Selected(xs, f)| ==>
              Selected(xs, f)[k] < |xs| && f(xs[Selected(xs, f)[k]]) == [Collect(xs, f)[k]]
  {
    if xs != [] {
      var rest := xs[1..];
      CollectSelected(rest, f);
      var later := Selected(rest, f);
      var first: seq<nat> := if f(xs[0]) == [] then [] else [0];
      var idx := first + seq(|later|, k requires 0 <= k < |later| => later[k] + 1);
      var vals := f(xs[0]) + Collect(rest, f);
      assert |first| == |f(xs[0])|;
      forall k | 0 <= k < |idx| ensures idx[k] < |xs| && f(xs[idx[k]]) == [vals[k]] {
        if k >= |first| {
          var m := k - |first|;
          assert idx[k] == later[m] + 1 && vals[k] == Collect(rest, f)[m];
          assert xs[idx[k]] == rest[later[m]];
        } else {
          assert f(xs[0]) == [f(xs[0])[0]];
        }
      }
    }
  }

  lemma {:induction false} BodiesCollect(pieces: seq<string>)
    ensures Bodies(pieces) == Collect(pieces, Body)
  {
    if pieces != [] {
      BodiesCollect(pieces[1..]);
    }
  }

  /** The bullet texts are the stripped non-blank pieces, one for each, in the
      order of the pieces: no piece is skipped, repeated or moved. */
  lemma BodiesSelect(pieces: seq<string>)
    ensures var idx := Selected(pieces, Body);
            && |idx| == |Bodies(pieces)|
            && (forall k :: 0 <= k < |idx| ==> idx[k] < |pieces| && Bodies(pieces)[k] == Strip(pieces[idx[k]]))
            && (forall k, l :: 0 <= k < l < |idx| ==> idx[k] < idx[l])
            && (forall j :: 0 <= j < |pieces| && Strip(pieces[j]) != [] ==> j in idx)
  {
    var idx := Selected(pieces, Body);
    var bodies := Bodies(pieces);
    BodiesCollect(pieces);
    assert bodies == Collect(pieces, Body);
    CollectSelected(pieces, Body);
    forall k | 0 <= k < |idx| ensures idx[k] < |pieces| && bodies[k] == Strip(pieces[idx[k]]) {
      assert Body(pieces[idx[k]]) == [bodies[k]];
    }
    SelectedIncreasing(pieces, Body);
    SelectedComplete(pieces, Body);
    forall j | 0 <= j < |pieces| && Strip(pieces[j]) != [] ensures j in idx {
      assert Body(pieces[j]) != [];
    }
  }

  /** A bullet text: non-blank, without surrounding whitespace, on one line. */
  predicate Tidy(b: string) {
    b != [] && !IsSpace(b[0]) && !IsSpace(b[|b| - 1]) && '\n' !in b
  }

  lemma BodyShape(p: string)
    requires '\n' !in p
    ensures forall b :: b in Body(p) ==> Tidy(b)
  {
    var body := Strip(p);
    var lead := LeadingSpace(p);
    forall m | 0 <= m < |body| ensures body[m] != '\n' {
      assert body[m] == p[lead + m];
    }
  }

  /** Every bullet text is non-blank, has no surrounding whitespace and no
      line break. */
  lemma {:induction false} BodiesShape(pieces: seq<string>)
    requires forall p :: p in pieces ==> '\n' !in p
    ensures forall b :: b in Bodies(pieces) ==> Tidy(b)
  {
    if pieces != [] {
      assert pieces[0] in pieces;
      BodyShape(pieces[0]);
      BodiesShape(pieces[1..]);
    }
  }

  /** The line-by-line reading of the bullets: one `- ` line per text, in
      order, and a final empty remainder after the last line break. */
  lemma {:induction false} BulletLines(bodies: seq<string>)
    requires forall k :: 0 <= k < |bodies| ==> '\n' !in bodies[k]
    ensures Split(Bullets(bodies), '\n') == seq(|bodies|, k requires 0 <= k < |bodies| => "- " + bodies[k]) + [[]]
  {
    if bodies == [] {
      assert Split([], '\n') == [[]];
    } else {
      var line := "- " + bodies[0];
      BulletLines(bodies[1..]);
      assert '\n' !in line by {
        forall m | 0 <= m < |line| ensures line[m] != '\n' {
          if m >= 2 { assert line[m] == bodies[0][m - 2]; }
        }
      }
      assert Bullets(bodies) == line + ['\n'] + Bullets(bodies[1..]);
      SplitAtSeparator(line, Bullets(bodies[1..]), '\n');
      SplitNoSeparator(line, '\n');
    }
  }

  /** A bullet line is one line when its text is. */
  lemma BulletTextsOneLine(bodies: seq<string>)
    requires forall k :: 0 <= k < |bodies| ==> '\n' !in bodies[k]
    ensures forall k :: 0 <= k < |bodies| ==> '\n' !in BulletTexts(bodies)[k]
  {
    forall k | 0 <= k < |bodies| ensures '\n' !in BulletTexts(bodies)[k] {
      var line := BulletTexts(bodies)[k];
      forall m | 0 <= m < |line| ensures line[m] != '\n' {
        if m >= 2 { assert line[m] == bodies[k][m - 2]; }
      }
    }
  }

  /** Every kept sentence of a transcript is tidy. */
  lemma TidyBodies(text: string)
    ensures forall k :: 0 <= k < |Bodies(Pieces(text))| ==> Tidy(Bodies(Pieces(text))[k])
  {
    var pieces := Pieces(text);
    var bodies := Bodies(pieces);
    PiecesShape(text);
    assert forall p :: p in pieces ==> '\n' !in p;
    BodiesShape(pieces);
    forall k | 0 <= k < |bodies| ensures Tidy(bodies[k]) { assert bodies[k] in bodies; }
  }

  /** No header line holds a line break, given a date without one. */
  lemma HeaderLinesOneLine(date: string)
    requires '\n' !in date
    ensures forall k :: 0 <= k < |HeaderLines(date)| ==> '\n' !in HeaderLines(date)[k]
  {
    var h := HeaderLines(date);
    assert h[0] == ['#', ' ', '議', '事', '録'];
    assert h[2] == ['#', '#', ' ', '日', '時'];
    assert h[5] == ['#', '#', ' ', '議', '事', '内', '容'];
  }

  /** The minutes `FormatMinutes` returns, read line by line: the seven header
      lines with the date on the fourth, one `- text` line per kept sentence,
      in order, each text tidy, and nothing after the last line break. */
  lemma MinutesLines(text: string, date: string)
    requires '\n' !in date
    ensures var bodies := Bodies(Pieces(text));
            && (forall k :: 0 <= k < |bodies| ==> Tidy(bodies[k]))
            && Split(Header(date) + Bullets(bodies), '\n') == HeaderLines(date) + BulletTexts(bodies) + [[]]
  {
    var bodies := Bodies(Pieces(text));
    TidyBodies(text);
    BulletTextsOneLine(bodies);
    var lines := BulletTexts(bodies);
    var h := HeaderLines(date);
    HeaderLinesOneLine(date);
    SplitLines(lines, []);
    assert Lines(lines) + [] == Lines(lines);
    SplitLines(h, Lines(lines));
  }
}
