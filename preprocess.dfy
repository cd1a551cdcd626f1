/** `preprocess_text` of utils.py: the normalisation that turns a raw text
    into the document token sequence, written as one character pass per
    rewrite step. */
module Preprocess {
  import opened PyStr

  /** The characters that `preprocess_text` turns into spaces, in the order
      of its replacement loop. */
  const Puncts: seq<char> := ['.', ',', '?', '!', ':', ';']

  /** What is left of `s` once its leading newlines are cut. */
  function DropNewlines(s: string): (r: string)
    ensures |r| <= |s| && r == s[|s| - |r|..]
    ensures |r| > 0 ==> r[0] != '\n'
  {
    if |s| > 0 && s[0] == '\n' then DropNewlines(s[1..]) else s
  }

  /** `re.sub(r'\n+', '. ', s)`: every maximal run of newlines becomes `". "`. */
  function CollapseNewlines(s: string): (r: string)
    ensures '\n' !in r
    ensures forall c :: c in r ==> c in s || c == '.' || c == ' '
    decreases |s|
  {
    if |s| == 0 then ""
    else if s[0] == '\n' then ". " + CollapseNewlines(DropNewlines(s[1..]))
    else [s[0]] + CollapseNewlines(s[1..])
  }

  predicate AllNewlines(n: string) {
    forall i :: 0 <= i < |n| ==> n[i] == '\n'
  }

  lemma {:induction false} DropNewlinesRun(n: string, y: string)
    requires AllNewlines(n)
    requires |y| == 0 || y[0] != '\n'
    ensures DropNewlines(n + y) == y
    decreases |n|
  {
    if |n| == 0 {
      assert n + y == y;
    } else {
      assert (n + y)[0] == '\n';
      assert (n + y)[1..] == n[1..] + y;
      DropNewlinesRun(n[1..], y);
    }
  }

  lemma CollapseNewlinesCons(c: char, t: string)
    requires c != '\n'
    ensures CollapseNewlines([c] + t) == [c] + CollapseNewlines(t)
  {
    assert ([c] + t)[1..] == t;
  }

  lemma CollapseNewlinesHead(n: string, y: string)
    requires |n| > 0 && AllNewlines(n)
    requires |y| == 0 || y[0] != '\n'
    ensures CollapseNewlines(n + y) == ". " + CollapseNewlines(y)
  {
    assert (n + y)[1..] == n[1..] + y;
    DropNewlinesRun(n[1..], y);
  }

  /** The first rewrite keeps the text before a run of newlines, puts `". "`
      in place of the whole run, and goes on after it. */
  lemma {:induction false} CollapseNewlinesRun(x: string, n: string, y: string)
    requires '\n' !in x
    requires |n| > 0 && AllNewlines(n)
    requires |y| == 0 || y[0] != '\n'
    ensures CollapseNewlines(x + n + y) == x + ". " + CollapseNewlines(y)
    decreases |x|
  {
    var tail := ". " + CollapseNewlines(y);
    Assoc(x, ". ", CollapseNewlines(y));
    if |x| == 0 {
      assert x + n + y == n + y;
      CollapseNewlinesHead(n, y);
    } else {
      ConsRegroup(x, n, y);
      CollapseNewlinesCons(x[0], x[1..] + n + y);
      assert '\n' !in x[1..];
      CollapseNewlinesRun(x[1..], n, y);
      Assoc(x[1..], ". ", CollapseNewlines(y));
      HeadTail(x, tail);
    }
  }

  predicate NoDoubleSpace(s: string) {
    forall i :: 0 <= i < |s| - 1 ==> !(IsSpace(s[i]) && IsSpace(s[i + 1]))
  }

  /** `re.sub(r'\s{2,}', '', s)`: every maximal run of two or more whitespace
      characters is deleted, while a lone whitespace character stays. No
      visible character is lost, and no two whitespace characters are left
      side by side. */
  function DeleteSpaceRuns(s: string): (r: string)
    ensures Visible(r) == Visible(s)
    ensures NoDoubleSpace(r)
    ensures |s| > 0 && !IsSpace(s[0]) ==> |r| > 0 && r[0] == s[0]
    ensures forall c :: c in r ==> c in s
    decreases |s|
  {
    if |s| == 0 then ""
    else if IsSpace(s[0]) && |s| >= 2 && IsSpace(s[1]) then
      DeleteSpaceRuns(LStrip(s))
    else
      var rest := DeleteSpaceRuns(s[1..]);
      assert Visible([s[0]] + rest) == Visible(s) by {
        assert ([s[0]] + rest)[0] == s[0];
        assert ([s[0]] + rest)[1..] == rest;
      }
      assert NoDoubleSpace([s[0]] + rest) by {
        if |rest| > 0 && IsSpace(s[0]) {
          assert !IsSpace(s[1]);
        }
        forall i | 1 <= i < |rest|
          ensures !(IsSpace(([s[0]] + rest)[i]) && IsSpace(([s[0]] + rest)[i + 1]))
        {
          assert ([s[0]] + rest)[i] == rest[i - 1];
        }
      }
      [s[0]] + rest
  }

  /** `s.replace(c, ' ')`. */
  function ReplaceWithSpace(s: string, c: char): string {
    seq(|s|, i requires 0 <= i < |s| => if s[i] == c then ' ' else s[i])
  }

  /** The replacement loop `for punc in ps: s = s.replace(punc, ' ')`. Its
      effect is one pass that turns every character of `ps` into a space. */
  function ReplaceEach(s: string, ps: seq<char>): (r: string)
    ensures |r| == |s|
    ensures forall i :: 0 <= i < |s| ==> r[i] == if s[i] in ps then ' ' else s[i]
    decreases |ps|
  {
    if |ps| == 0 then s else ReplaceEach(ReplaceWithSpace(s, ps[0]), ps[1..])
  }

  /** A token `preprocess_text` can yield: a word with no ASCII capital and
      none of `. , ? ! : ;`. */
  predicate PlainWord(w: string) {
    IsWord(w) && forall c :: c in w ==> !IsUpper(c) && c !in Puncts
  }

  /** After lower-casing and the replacement loop, every word is plain. */
  lemma RewrittenWordsPlain(s: string)
    ensures forall t :: t in Split(ReplaceEach(Lower(s), Puncts)) ==> PlainWord(t)
  {
    var lowered := Lower(s);
    var replaced := ReplaceEach(lowered, Puncts);
    forall t, c | t in Split(replaced) && c in t
      ensures !IsUpper(c) && c !in Puncts
    {
      var i :| 0 <= i < |replaced| && replaced[i] == c;
      assert !IsSpace(c);
    }
  }

  /** `preprocess_text(text)`: every token is a plain word. */
  function PreprocessText(text: string): (r: seq<string>)
    ensures forall t :: t in r ==> PlainWord(t)
  {
    var deleted := DeleteSpaceRuns(CollapseNewlines(text));
    RewrittenWordsPlain(deleted);
    Split(ReplaceEach(Lower(deleted), Puncts))
  }

  /** A text with no newline goes through the first rewrite unchanged. */
  lemma {:induction false} CollapseNewlinesIdentity(s: string)
    requires '\n' !in s
    ensures CollapseNewlines(s) == s
  {
    if |s| > 0 {
      assert '\n' !in s[1..];
      CollapseNewlinesIdentity(s[1..]);
      assert [s[0]] + s[1..] == s;
    }
  }

  /** An empty or all-whitespace text has no tokens. */
  lemma BlankTextNoTokens(text: string)
    requires AllSpace(text)
    ensures PreprocessText(text) == []
  {
    var collapsed := CollapseNewlines(text);
    var deleted := DeleteSpaceRuns(collapsed);
    var lowered := Lower(deleted);
    var replaced := ReplaceEach(lowered, Puncts);
    forall i | 0 <= i < |replaced| ensures IsSpace(replaced[i]) {
      var c := deleted[i];
      assert c in deleted;
      assert c in collapsed;
      assert IsSpace(c) || c == '.';
      assert lowered[i] == c;
    }
    SplitEmptyIff(replaced);
  }

  /** Text that has no two whitespace characters side by side, and does not
      form a pair with what follows, passes the second rewrite unchanged: a
      lone whitespace character is kept. */
  lemma {:induction false} DeleteSpaceRunsKeeps(x: string, rest: string)
    requires NoDoubleSpace(x)
    requires |x| > 0 && |rest| > 0 ==> !(IsSpace(x[|x| - 1]) && IsSpace(rest[0]))
    ensures DeleteSpaceRuns(x + rest) == x + DeleteSpaceRuns(rest)
    decreases |x|
  {
    if |x| == 0 {
      assert x + rest == rest;
    } else {
      assert x + rest == [x[0]] + (x[1..] + rest) by {
        ConsRegroup(x, rest, []);
        assert x + rest + [] == x + rest;
        assert x[1..] + rest + [] == x[1..] + rest;
      }
      assert |x[1..] + rest| > 0 ==> (x[1..] + rest)[0] == if |x| >= 2 then x[1] else rest[0];
      DeleteSpaceRunsCons(x[0], x[1..] + rest);
      assert NoDoubleSpace(x[1..]) by {
        assert forall i :: 0 <= i < |x| - 1 ==> x[1..][i] == x[i + 1];
      }
      DeleteSpaceRunsKeeps(x[1..], rest);
      HeadTail(x, DeleteSpaceRuns(rest));
    }
  }

  /** A character that does not start a whitespace run is kept. */
  lemma DeleteSpaceRunsCons(c: char, t: string)
    requires !(IsSpace(c) && |t| > 0 && IsSpace(t[0]))
    ensures DeleteSpaceRuns([c] + t) == [c] + DeleteSpaceRuns(t)
  {
    assert ([c] + t)[0] == c;
    assert ([c] + t)[1..] == t;
  }

  /** A text with no two adjacent whitespace characters is a fixed point of
      the second rewrite. */
  lemma DeleteSpaceRunsIdentity(s: string)
    requires NoDoubleSpace(s)
    ensures DeleteSpaceRuns(s) == s
  {
    DeleteSpaceRunsKeeps(s, "");
    assert s + "" == s;
  }

  lemma {:induction false} LStripRun(sp: string, y: string)
    requires AllSpace(sp)
    requires |y| == 0 || !IsSpace(y[0])
    ensures LStrip(sp + y) == y
    decreases |sp|
  {
    if |sp| == 0 {
      assert sp + y == y;
    } else {
      assert (sp + y)[0] == sp[0];
      assert (sp + y)[1..] == sp[1..] + y;
      LStripRun(sp[1..], y);
    }
  }

  /** A run of two or more whitespace characters is deleted outright, so
      the text on either side is glued together. */
  lemma DeleteSpaceRunsDrops(sp: string, y: string)
    requires |sp| >= 2 && AllSpace(sp)
    requires |y| == 0 || !IsSpace(y[0])
    ensures DeleteSpaceRuns(sp + y) == DeleteSpaceRuns(y)
  {
    var s := sp + y;
    assert s[0] == sp[0] && s[1] == sp[1];
    LStripRun(sp, y);
  }

  /** `re.sub(r'\s{2,}', '', "a  b c")` is `"ab c"`, for any words in
      place of `a`, `b` and `c`: the double space goes and the words on both
      sides are glued, while the single space stays. */
  lemma GluingExample(u: string, v: string, w: string)
    requires IsWord(u) && IsWord(v) && IsWord(w)
    ensures DeleteSpaceRuns(u + "  " + v + " " + w) == u + v + " " + w
  {
    var tail := v + " " + w;
    assert DeleteSpaceRuns(tail) == tail by {
      NoDoubleSpaceGlue(v, w);
      DeleteSpaceRunsIdentity(tail);
    }
    assert DeleteSpaceRuns("  " + tail) == tail by {
      assert tail[0] == v[0];
      DeleteSpaceRunsDrops("  ", tail);
    }
    assert DeleteSpaceRuns(u + ("  " + tail)) == u + tail by {
      DeleteSpaceRunsKeeps(u, "  " + tail);
    }
    Regroup(u, "  ", v, " ", w);
  }

  lemma NoDoubleSpaceGlue(w: string, rest: string)
    requires IsWord(w) && NoDoubleSpace(rest)
    requires |rest| > 0 && !IsSpace(rest[0])
    ensures NoDoubleSpace(w + " " + rest)
  {
    var t := w + " " + rest;
    forall i | 0 <= i < |t| - 1
      ensures !(IsSpace(t[i]) && IsSpace(t[i + 1]))
    {
      if i < |w| {
        assert t[i] == w[i];
      } else if i == |w| {
        assert t[i + 1] == rest[0];
      } else {
        assert t[i] == rest[i - |w| - 1];
      }
    }
  }

  /** A space-join of words has no two adjacent whitespace characters, so
      the second rewrite leaves it unchanged. */
  lemma {:induction false} JoinKeepsSingleSpaces(ws: seq<string>)
    requires forall k :: 0 <= k < |ws| ==> IsWord(ws[k])
    ensures NoDoubleSpace(Join(ws))
    ensures DeleteSpaceRuns(Join(ws)) == Join(ws)
  {
    if |ws| >= 2 {
      JoinKeepsSingleSpaces(ws[1..]);
      assert ws[1..][0] == ws[1];
      NoDoubleSpaceGlue(ws[0], Join(ws[1..]));
    }
    DeleteSpaceRunsIdentity(Join(ws));
  }

  /** Every character of a space-join of plain words is the separating
      space or a plain character. */
  lemma JoinOfPlainWords(ws: seq<string>)
    requires forall k :: 0 <= k < |ws| ==> PlainWord(ws[k])
    ensures forall c :: c in Join(ws) ==> c == ' ' || (!IsSpace(c) && !IsUpper(c) && c !in Puncts)
  {
    forall c | c in Join(ws) && c != ' '
      ensures !IsSpace(c) && !IsUpper(c) && c !in Puncts
    {
      var k :| 0 <= k < |ws| && c in ws[k];
      assert PlainWord(ws[k]);
      var j :| 0 <= j < |ws[k]| && ws[k][j] == c;
    }
  }

  /** A text of single spaces and plain characters passes the first, third
      and fourth rewrites unchanged. */
  lemma PlainTextFixed(t: string)
    requires forall c :: c in t ==> c == ' ' || (!IsSpace(c) && !IsUpper(c) && c !in Puncts)
    ensures CollapseNewlines(t) == t
    ensures Lower(t) == t
    ensures ReplaceEach(t, Puncts) == t
  {
    assert forall i :: 0 <= i < |t| ==> t[i] in t;
    assert '\n' !in t;
    CollapseNewlinesIdentity(t);
  }

  /** Round trip: preprocessing the space-join of plain words gives the
      words back. */
  lemma PreprocessJoin(ws: seq<string>)
    requires forall k :: 0 <= k < |ws| ==> PlainWord(ws[k])
    ensures PreprocessText(Join(ws)) == ws
  {
    var text := Join(ws);
    JoinOfPlainWords(ws);
    PlainTextFixed(text);
    JoinKeepsSingleSpaces(ws);
    SplitJoin(ws);
  }

  lemma LowerAppend(a: string, b: string)
    ensures Lower(a + b) == Lower(a) + Lower(b)
  {
    assert forall i :: 0 <= i < |a + b| ==> Lower(a + b)[i] == (Lower(a) + Lower(b))[i];
  }

  lemma ReplaceAppend(a: string, b: string)
    ensures ReplaceEach(a + b, Puncts) == ReplaceEach(a, Puncts) + ReplaceEach(b, Puncts)
  {
    var l, r := ReplaceEach(a + b, Puncts), ReplaceEach(a, Puncts) + ReplaceEach(b, Puncts);
    forall i | 0 <= i < |a + b|
      ensures l[i] == r[i]
    {
      if i < |a| {
        assert (a + b)[i] == a[i];
      } else {
        assert (a + b)[i] == b[i - |a|];
      }
    }
  }

  lemma PlainWordChars(w: string)
    requires PlainWord(w)
    ensures forall c :: c in w ==> !IsSpace(c) && !IsUpper(c) && c !in Puncts
  {
    forall c | c in w
      ensures !IsSpace(c)
    {
      var j :| 0 <= j < |w| && w[j] == c;
    }
  }

  lemma PunctuationPieces()
    ensures Lower(", ") == ", " && Lower("!") == "!"
    ensures ReplaceEach(", ", Puncts) == "  " && ReplaceEach("!", Puncts) == " "
  {
  }

  lemma WordCons(c: char, u: string)
    requires !IsSpace(c) && IsWord(u)
    ensures IsWord([c] + u)
  {
    forall i | 0 <= i < |[c] + u|
      ensures !IsSpace(([c] + u)[i])
    {
      if i > 0 {
        assert ([c] + u)[i] == u[i - 1];
      }
    }
  }

  lemma LowerChain(a: string, b: string, c: string, d: string, e: string)
    ensures Lower(a + b + c + d + e) == Lower(a) + Lower(b) + Lower(c) + Lower(d) + Lower(e)
  {
    LowerAppend(a + b + c + d, e);
    LowerAppend(a + b + c, d);
    LowerAppend(a + b, c);
    LowerAppend(a, b);
  }

  lemma ReplaceChain(a: string, b: string, c: string, d: string, e: string)
    ensures ReplaceEach(a + b + c + d + e, Puncts)
         == ReplaceEach(a, Puncts) + ReplaceEach(b, Puncts) + ReplaceEach(c, Puncts) + ReplaceEach(d, Puncts) + ReplaceEach(e, Puncts)
  {
    ReplaceAppend(a + b + c + d, e);
    ReplaceAppend(a + b + c, d);
    ReplaceAppend(a + b, c);
    ReplaceAppend(a, b);
  }

  /** A plain word passes lower-casing and the replacement loop unchanged. */
  lemma PlainWordFixed(w: string)
    requires PlainWord(w)
    ensures Lower(w) == w && ReplaceEach(w, Puncts) == w
  {
    PlainWordChars(w);
    PlainTextFixed(w);
  }

  /** Lower-casing `"Hello, world!"` touches only the capital. */
  lemma LowerPieces(C: char, u: string, v: string)
    requires PlainWord(u) && PlainWord(v)
    ensures Lower([C] + u + ", " + v + "!") == [LowerChar(C)] + u + ", " + v + "!"
  {
    LowerChain([C], u, ", ", v, "!");
    PlainWordFixed(u);
    PlainWordFixed(v);
    PunctuationPieces();
    assert Lower([C]) == [LowerChar(C)];
  }

  /** The replacement loop turns the comma and the exclamation mark of
      `"hello, world!"` into spaces. */
  lemma ReplacePieces(c: char, u: string, v: string)
    requires 'a' <= c <= 'z' && PlainWord(u) && PlainWord(v)
    ensures ReplaceEach([c] + u + ", " + v + "!", Puncts) == [c] + u + "  " + v + " "
  {
    ReplaceChain([c], u, ", ", v, "!");
    PlainWordFixed(u);
    PlainWordFixed(v);
    PunctuationPieces();
    LetterFixed(c);
  }

  lemma LetterFixed(c: char)
    requires 'a' <= c <= 'z'
    ensures ReplaceEach([c], Puncts) == [c]
  {
    assert ReplaceEach([c], Puncts)[0] == c;
  }

  /** `"hello  world "` splits into `hello` and `world`. */
  lemma SplitPieces(w: string, v: string)
    requires IsWord(w) && IsWord(v)
    ensures Split(w + "  " + v + " ") == [w, v]
  {
    Regroup(w, "  ", v, "", " ");
    assert w + "  " + v + " " == w + ("  " + (v + " "));
    SplitTakesWord(w, "  " + (v + " "));
    SplitSkipsSpace("  ", v + " ");
    SplitTakesWord(v, " ");
    SplitEmptyIff(" ");
  }

  lemma JoinNoNewline(ws: seq<string>)
    requires forall k :: 0 <= k < |ws| ==> IsWord(ws[k])
    ensures '\n' !in Join(ws)
  {
    forall k | 0 <= k < |ws|
      ensures '\n' !in ws[k]
    {
      assert NoSpace(ws[k]);
      assert forall j :: 0 <= j < |ws[k]| ==> ws[k][j] != '\n';
    }
  }

  /** `"Hello,"` and `"world!"` are words, and `"Hello, world!"` is their
      space-join. */
  lemma HelloIsJoin(C: char, u: string, v: string)
    requires IsUpper(C) && PlainWord(u) && PlainWord(v)
    ensures var ws := [[C] + u + ",", v + "!"];
      && (forall k :: 0 <= k < |ws| ==> IsWord(ws[k]))
      && [C] + u + ", " + v + "!" == Join(ws)
  {
    var w1, w2 := [C] + u + ",", v + "!";
    assert IsWord(w1) by {
      WordCons(C, u);
      assert forall i :: 0 <= i < |w1| - 1 ==> w1[i] == ([C] + u)[i];
    }
    assert IsWord(w2) by {
      assert forall i :: 0 <= i < |v| ==> w2[i] == v[i];
    }
    assert Join([w1, w2]) == w1 + " " + w2 by {
      assert [w1, w2][1..] == [w2];
    }
    Regroup([C] + u, ",", " ", v, "!");
  }

  /** `"Hello, world!"` is a space-join of two words, so the first two
      rewrites leave it unchanged. */
  lemma FirstRewritesPieces(C: char, u: string, v: string)
    requires IsUpper(C) && PlainWord(u) && PlainWord(v)
    ensures DeleteSpaceRuns(CollapseNewlines([C] + u + ", " + v + "!")) == [C] + u + ", " + v + "!"
  {
    var ws := [[C] + u + ",", v + "!"];
    HelloIsJoin(C, u, v);
    JoinNoNewline(ws);
    CollapseNewlinesIdentity(Join(ws));
    JoinKeepsSingleSpaces(ws);
  }

  /** The pattern of `"Hello, world!"`: a capital and the rest of a word, a
      comma and a space, a second word and an exclamation mark give two
      lower-case tokens without the punctuation. */
  lemma CapitalAndPunctuation(C: char, u: string, v: string)
    requires IsUpper(C) && PlainWord(u) && PlainWord(v)
    ensures PreprocessText([C] + u + ", " + v + "!") == [[LowerChar(C)] + u, v]
  {
    FirstRewritesPieces(C, u, v);
    LowerPieces(C, u, v);
    ReplacePieces(LowerChar(C), u, v);
    WordCons(LowerChar(C), u);
    SplitPieces([LowerChar(C)] + u, v);
  }

  lemma HelloWorldPieces()
    ensures PlainWord("ello") && PlainWord("world")
    ensures ['H'] + "ello" + ", " + "world" + "!" == "Hello, world!"
    ensures [LowerChar('H')] + "ello" == "hello"
  {
  }

  /** The text `"Hello, world!"` gives the tokens `hello` and `world`. */
  lemma PreprocessExample()
    ensures PreprocessText("Hello, world!") == ["hello", "world"]
  {
    HelloWorldPieces();
    CapitalAndPunctuation('H', "ello", "world");
  }
}
