/** Python's built-in string and list operations that the labeller relies on:
    whitespace classification, ASCII case mapping, `str.strip()`,
    `str.split()` with no separator, `' '.join(...)` and list concatenation. */
module PyStr {

  /** The characters for which Python's `str.isspace()` holds. They are also
      what `\s` matches in a `str` regular expression and where `str.split()`
      and `str.strip()` cut. */
  predicate IsSpace(c: char) {
    || ('\t' <= c <= '\r')
    || ('\U{1C}' <= c <= '\U{1F}')
    || c == ' '
    || c == '\U{85}'
    || c == '\U{A0}'
    || c == '\U{1680}'
    || ('\U{2000}' <= c <= '\U{200A}')
    || c == '\U{2028}'
    || c == '\U{2029}'
    || c == '\U{202F}'
    || c == '\U{205F}'
    || c == '\U{3000}'
  }

  /** `c.isupper()`, restricted to ASCII letters. */
  predicate IsUpper(c: char) {
    'A' <= c <= 'Z'
  }

  /** `c.lower()`, restricted to ASCII letters: a capital becomes its small
      letter, every other character stays, and no character moves into or out
      of the whitespace class. */
  function LowerChar(c: char): (r: char)
    ensures !IsUpper(r)
    ensures IsUpper(c) ==> 'a' <= r <= 'z' && r as int == c as int + 32
    ensures !IsUpper(c) ==> r == c
    ensures IsSpace(r) == IsSpace(c)
  {
    if IsUpper(c) then (c as int + 32) as char else c
  }

  /** `s.lower()`, one character at a time: the result has no capital, keeps
      every character that is not a capital, and has its whitespace where
      `s` has it. */
  function Lower(s: string): (r: string)
    ensures |r| == |s|
    ensures forall i :: 0 <= i < |s| ==>
      && !IsUpper(r[i])
      && (IsUpper(s[i]) || r[i] == s[i])
      && IsSpace(r[i]) == IsSpace(s[i])
    ensures forall i :: 0 <= i < |s| && IsUpper(s[i]) ==> r[i] as int == s[i] as int + 32
  {
    seq(|s|, i requires 0 <= i < |s| => LowerChar(s[i]))
  }

  predicate NoSpace(s: string) {
    forall i :: 0 <= i < |s| ==> !IsSpace(s[i])
  }

  /** What `str.split()` can produce: a non-empty run of non-space characters. */
  predicate IsWord(w: string) {
    |w| > 0 && NoSpace(w)
  }

  predicate AllSpace(s: string) {
    forall i :: 0 <= i < |s| ==> IsSpace(s[i])
  }

  /** The non-space characters of `s`, in order. */
  function Visible(s: string): string {
    if |s| == 0 then ""
    else if IsSpace(s[0]) then Visible(s[1..])
    else [s[0]] + Visible(s[1..])
  }

  /** `s.lstrip()`: what is left once the leading whitespace is cut. */
  function LStrip(s: string): (r: string)
    ensures |r| <= |s| && r == s[|s| - |r|..]
    ensures forall k :: 0 <= k < |s| - |r| ==> IsSpace(s[k])
    ensures |r| > 0 ==> !IsSpace(r[0])
    ensures Visible(r) == Visible(s)
  {
    if |s| > 0 && IsSpace(s[0]) then
      assert Visible(s) == Visible(s[1..]);
      LStrip(s[1..])
    else s
  }

  /** `s.rstrip()`: what is left once the trailing whitespace is cut. */
  function RStrip(s: string): (r: string)
    ensures |r| <= |s| && r == s[..|r|]
    ensures forall k :: |r| <= k < |s| ==> IsSpace(s[k])
    ensures |r| > 0 ==> !IsSpace(r[|r| - 1])
  {
    if |s| > 0 && IsSpace(s[|s| - 1]) then RStrip(s[..|s| - 1]) else s
  }

  /** `s.strip()`: the part of `s` between a whitespace prefix and a
      whitespace suffix that neither starts nor ends with whitespace. */
  function Strip(s: string): (r: string)
    ensures |r| > 0 ==> !IsSpace(r[0]) && !IsSpace(r[|r| - 1])
    ensures exists a :: 0 <= a <= |s| - |r| && s[a..a + |r|] == r && AllSpace(s[..a]) && AllSpace(s[a + |r|..])
  {
    var left := LStrip(s);
    var r := RStrip(left);
    StripShape(s, left, r);
    r
  }

  /** A prefix `r` of a suffix `left` of `s`, with whitespace cut on both
      sides, sits between a whitespace prefix and a whitespace suffix of `s`. */
  lemma StripShape(s: string, left: string, r: string)
    requires |left| <= |s| && left == s[|s| - |left|..]
    requires forall k :: 0 <= k < |s| - |left| ==> IsSpace(s[k])
    requires |r| <= |left| && r == left[..|r|]
    requires forall k :: |r| <= k < |left| ==> IsSpace(left[k])
    ensures var a := |s| - |left|;
      0 <= a <= |s| - |r| && s[a..a + |r|] == r && AllSpace(s[..a]) && AllSpace(s[a + |r|..])
  {
    var a := |s| - |left|;
    assert s[a..a + |r|] == r;
    assert AllSpace(s[..a]) by {
      assert forall k :: 0 <= k < a ==> s[..a][k] == s[k];
    }
    assert s[a + |r|..] == left[|r|..];
  }

  /** The words of `s`, where `word` holds the characters of the word being
      read when `s` starts. */
  function SplitFrom(s: string, word: string): (r: seq<string>)
    ensures NoSpace(word) ==>
      forall t :: t in r ==> IsWord(t) && forall c :: c in t ==> c in word || c in s
    decreases |s|
  {
    if |s| == 0 then
      if word == [] then [] else [word]
    else if IsSpace(s[0]) then
      (if word == [] then [] else [word]) + SplitFrom(s[1..], [])
    else
      SplitFrom(s[1..], word + [s[0]])
  }

  /** Reading on from `word`, the words hold exactly the characters of
      `word` followed by the non-space characters of `s`, in order. */
  lemma {:induction false} SplitFromVisible(s: string, word: string)
    requires NoSpace(word)
    ensures Concat(SplitFrom(s, word)) == word + Visible(s)
    decreases |s|
  {
    if |s| == 0 {
      if word != [] {
        assert Concat([word]) == word + Concat([word][1..]);
      }
    } else if IsSpace(s[0]) {
      var head := if word == [] then [] else [word];
      var rest := SplitFrom(s[1..], []);
      SplitFromVisible(s[1..], []);
      ConcatPrepend(head, rest);
      if word != [] {
        assert Concat(head) == word + Concat(head[1..]);
      }
    } else {
      SplitFromVisible(s[1..], word + [s[0]]);
    }
  }

  lemma {:induction false} ConcatPrepend<T>(a: seq<seq<T>>, b: seq<seq<T>>)
    ensures Concat(a + b) == Concat(a) + Concat(b)
  {
    if |a| == 0 {
      assert a + b == b;
    } else {
      assert (a + b)[1..] == a[1..] + b;
      ConcatPrepend(a[1..], b);
    }
  }

  /** `s.split()`: the maximal runs of non-space characters, in order. Every
      token is a word of characters of `s`, and laid end to end the tokens
      give every non-space character of `s`, in order. */
  function Split(s: string): (r: seq<string>)
    ensures forall t :: t in r ==> IsWord(t) && forall c :: c in t ==> c in s
    ensures Concat(r) == Visible(s)
  {
    SplitFromVisible(s, []);
    SplitFrom(s, [])
  }

  /** A word followed by whitespace is a token of its own. */
  lemma SplitTakesWord(w: string, rest: string)
    requires IsWord(w) && |rest| > 0 && IsSpace(rest[0])
    ensures Split(w + rest) == [w] + Split(rest)
  {
    SplitFromRun(w, rest, []);
    assert [] + w == w;
    assert SplitFrom(rest, []) == [] + SplitFrom(rest[1..], []);
  }

  /** Leading whitespace gives no token. */
  lemma {:induction false} SplitSkipsSpace(sp: string, rest: string)
    requires AllSpace(sp)
    ensures Split(sp + rest) == Split(rest)
    decreases |sp|
  {
    if |sp| == 0 {
      assert sp + rest == rest;
    } else {
      assert (sp + rest)[0] == sp[0];
      assert (sp + rest)[1..] == sp[1..] + rest;
      SplitSkipsSpace(sp[1..], rest);
    }
  }

  /** `' '.join(ws)`: it starts with the first item, and every character is
      a separating space or a character of some item. */
  function Join(ws: seq<string>): (r: string)
    ensures |ws| > 0 && |ws[0]| > 0 ==> |r| > 0 && r[0] == ws[0][0]
    ensures forall c :: c in r ==> c == ' ' || exists k :: 0 <= k < |ws| && c in ws[k]
  {
    if |ws| == 0 then ""
    else if |ws| == 1 then ws[0]
    else
      assert forall k :: 0 <= k < |ws| - 1 ==> ws[1..][k] == ws[k + 1];
      ws[0] + " " + Join(ws[1..])
  }

  /** `' '.join(ws)` ends with the last item. */
  lemma {:induction false} JoinLast(ws: seq<string>)
    requires |ws| > 0 && |ws[|ws| - 1]| > 0
    ensures |Join(ws)| > 0 && Join(ws)[|Join(ws)| - 1] == ws[|ws| - 1][|ws[|ws| - 1]| - 1]
  {
    if |ws| > 1 {
      assert ws[1..][|ws| - 2] == ws[|ws| - 1];
      JoinLast(ws[1..]);
    }
  }

  /** A string that neither starts nor ends with whitespace is its own
      `strip()`. */
  lemma StripTrimmed(s: string)
    requires |s| > 0 ==> !IsSpace(s[0]) && !IsSpace(s[|s| - 1])
    ensures Strip(s) == s
  {
    assert LStrip(s) == s;
    assert RStrip(s) == s;
  }

  /** Lower-casing a string without capitals leaves it unchanged. */
  lemma LowerNoCapital(s: string)
    requires forall c :: c in s ==> !IsUpper(c)
    ensures Lower(s) == s
  {
    assert forall i :: 0 <= i < |s| ==> !IsUpper(s[i]) by {
      forall i | 0 <= i < |s| ensures !IsUpper(s[i]) {
        assert s[i] in s;
      }
    }
  }

  /** The concatenation of a list of lists, as `sum(ss, [])` would give. */
  function Concat<T>(ss: seq<seq<T>>): seq<T> {
    if |ss| == 0 then [] else ss[0] + Concat(ss[1..])
  }

  /** The words of each string of `ss`, one word list after the other. */
  function SplitAll(ss: seq<string>): seq<string> {
    if |ss| == 0 then [] else Split(ss[0]) + SplitAll(ss[1..])
  }

  lemma {:induction false} ConcatAppend<T>(ss: seq<seq<T>>, s: seq<T>)
    ensures Concat(ss + [s]) == Concat(ss) + s
  {
    if |ss| == 0 {
      assert ss + [s] == [s];
    } else {
      assert (ss + [s])[1..] == ss[1..] + [s];
      ConcatAppend(ss[1..], s);
    }
  }

  /** `str.split()` returns nothing exactly when there is no word being read
      and everything left is whitespace. */
  lemma {:induction false} SplitFromEmpty(s: string, word: string)
    ensures SplitFrom(s, word) == [] <==> word == [] && AllSpace(s)
    decreases |s|
  {
    if |s| > 0 {
      if IsSpace(s[0]) {
        SplitFromEmpty(s[1..], []);
        if AllSpace(s[1..]) {
          assert forall i :: 1 <= i < |s| ==> s[i] == s[1..][i - 1];
        }
      } else {
        SplitFromEmpty(s[1..], word + [s[0]]);
      }
    }
  }

  lemma LowerAllSpace(s: string)
    ensures AllSpace(Lower(s)) <==> AllSpace(s)
  {
    assert forall i :: 0 <= i < |s| ==> IsSpace(Lower(s)[i]) == IsSpace(s[i]);
  }

  /** `s.strip()` is empty exactly when `s` is all whitespace. */
  lemma StripEmptyIff(s: string)
    ensures Strip(s) == [] <==> AllSpace(s)
  {
    var left := LStrip(s);
    var r := RStrip(left);
    StripShape(s, left, r);
    TrimmedEmptyIff(s, r, |s| - |left|);
  }

  lemma TrimmedEmptyIff(s: string, r: string, a: nat)
    requires a + |r| <= |s| && s[a..a + |r|] == r && AllSpace(s[..a]) && AllSpace(s[a + |r|..])
    requires |r| > 0 ==> !IsSpace(r[0])
    ensures r == [] <==> AllSpace(s)
  {
    assert |r| > 0 ==> r[0] == s[a];
    forall i | 0 <= i < |s| && |r| == 0
      ensures IsSpace(s[i])
    {
      if i < a {
        assert s[..a][i] == s[i];
      } else {
        assert s[a..][i - a] == s[i];
      }
    }
  }

  /** `s.split()` is empty exactly when `s` is all whitespace. */
  lemma SplitEmptyIff(s: string)
    ensures Split(s) == [] <==> AllSpace(s)
  {
    SplitFromEmpty(s, []);
  }

  /** Reading a space-free run of characters only extends the current word. */
  lemma {:induction false} SplitFromRun(w: string, rest: string, word: string)
    requires NoSpace(w)
    ensures SplitFrom(w + rest, word) == SplitFrom(rest, word + w)
    decreases |w|
  {
    if |w| == 0 {
      assert w + rest == rest;
      assert word + w == word;
    } else {
      assert (w + rest)[0] == w[0];
      assert (w + rest)[1..] == w[1..] + rest;
      SplitFromRun(w[1..], rest, word + [w[0]]);
      assert word + [w[0]] + w[1..] == word + w;
    }
  }

  /** Round trip: splitting a space-joined list of words gives the list back. */
  lemma {:induction false} SplitJoin(ws: seq<string>)
    requires forall k :: 0 <= k < |ws| ==> IsWord(ws[k])
    ensures Split(Join(ws)) == ws
  {
    if |ws| == 1 {
      SplitFromRun(ws[0], "", []);
      assert ws[0] + "" == ws[0];
    } else if |ws| > 1 {
      var rest := Join(ws[1..]);
      assert ws[0] + " " + rest == ws[0] + (" " + rest);
      SplitFromRun(ws[0], " " + rest, []);
      assert [] + ws[0] == ws[0];
      assert (" " + rest)[0] == ' ' && (" " + rest)[1..] == rest;
      assert SplitFrom(" " + rest, ws[0]) == [ws[0]] + SplitFrom(rest, []);
      SplitJoin(ws[1..]);
      assert [ws[0]] + ws[1..] == ws;
    }
  }

  /** Concatenating a list that starts with `x`. */
  lemma ConcatCons<T>(x: seq<T>, rest: seq<seq<T>>)
    ensures Concat([x] + rest) == x + Concat(rest)
  {
    assert ([x] + rest)[1..] == rest;
  }

  /** Putting the head back in front of the tail. */
  lemma HeadTail<T>(x: seq<T>, d: seq<T>)
    requires |x| > 0
    ensures [x[0]] + (x[1..] + d) == x + d
  {
    assert x == [x[0]] + x[1..];
  }

  lemma Regroup<T>(u: seq<T>, a: seq<T>, v: seq<T>, b: seq<T>, w: seq<T>)
    ensures u + a + v + b + w == u + (a + (v + b + w))
    ensures u + v + b + w == u + (v + b + w)
  {
  }

  lemma Assoc<T>(a: seq<T>, b: seq<T>, c: seq<T>)
    ensures a + b + c == a + (b + c)
  {
  }

  /** Taking the head off the first of three concatenated sequences. */
  lemma ConsRegroup<T>(x: seq<T>, n: seq<T>, y: seq<T>)
    requires |x| > 0
    ensures x + n + y == [x[0]] + (x[1..] + n + y)
  {
    assert x == [x[0]] + x[1..];
  }

  lemma SliceJoin<T>(s: seq<T>, a: nat, b: nat)
    requires a <= b <= |s|
    ensures s[a..b] + s[b..] == s[a..]
  {
  }

  /** Moving the head of the rest onto the accumulator keeps the whole. */
  lemma ShiftOne<T>(acc: seq<T>, x: T, rest: seq<T>, whole: seq<T>)
    requires acc + ([x] + rest) == whole
    ensures (acc + [x]) + rest == whole
  {
  }

  lemma TakeSnoc<T>(s: seq<T>, i: nat)
    requires i < |s|
    ensures s[..i + 1] == s[..i] + [s[i]]
  {
  }

  lemma SliceSplit<T>(s: seq<T>, a: nat, b: nat, c: nat)
    requires a <= b <= c <= |s|
    ensures s[a..c] == s[a..b] + s[b..c]
  {
  }

  lemma SplitAllCons(s: string, ss: seq<string>)
    ensures SplitAll([s] + ss) == Split(s) + SplitAll(ss)
  {
    assert ([s] + ss)[1..] == ss;
  }
}
