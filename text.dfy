/** String operations the validation script applies to header names and cell
    text: Python's whitespace class, `str.strip()`, the `\s+` collapse,
    `str.lower()` and `", ".join(...)`. */
module Text {

  /** The characters Python's `str.isspace()` accepts. The regular expression
      class `\s` matches exactly these, and `str.strip()` removes exactly these. */
  predicate IsSpace(c: char) {
    c == ' ' || c == '\U{a0}'
    || Among(c, ['\t', '\n', '\U{b}', '\U{c}', '\r', '\U{1c}', '\U{1d}', '\U{1e}', '\U{1f}',
                 '\U{85}', '\U{1680}',
                 '\U{2000}', '\U{2001}', '\U{2002}', '\U{2003}', '\U{2004}', '\U{2005}',
                 '\U{2006}', '\U{2007}', '\U{2008}', '\U{2009}', '\U{200a}',
                 '\U{2028}', '\U{2029}', '\U{202f}', '\U{205f}', '\U{3000}'])
  }

  /** `c` occurs in `cs`. */
  predicate Among(c: char, cs: seq<char>) {
    cs != [] && (cs[0] == c || Among(c, cs[1..]))
  }

  /** No whitespace at either end. */
  predicate NoEdgeSpace(s: string) {
    s == [] || (!IsSpace(s[0]) && !IsSpace(s[|s| - 1]))
  }

  /** Every whitespace character is a plain space and none is followed by
      another whitespace character. */
  ghost predicate Collapsed(s: string) {
    forall i :: 0 <= i < |s| ==> CollapsedAt(s, i)
  }

  /** Position `i` of `s` is not whitespace, or a plain space not followed by
      whitespace. */
  ghost predicate CollapsedAt(s: string, i: nat)
    requires i < |s|
  {
    IsSpace(s[i]) ==> s[i] == ' ' && (i + 1 < |s| ==> !IsSpace(s[i + 1]))
  }

  /** The form every cleaned cell has. */
  ghost predicate IsClean(s: string) {
    Collapsed(s) && NoEdgeSpace(s)
  }

  /** The non-whitespace characters of `s`, in order. */
  function NonSpace(s: string): string {
    if s == [] then []
    else (if IsSpace(s[0]) then [] else [s[0]]) + NonSpace(s[1..])
  }

  /** `s` without its leading whitespace (`str.lstrip()`). */
  function TrimLeft(s: string): (r: string)
    ensures |r| <= |s|
    ensures r == [] || !IsSpace(r[0])
  {
    if s != [] && IsSpace(s[0]) then TrimLeft(s[1..]) else s
  }

  /** `s` without its trailing whitespace (`str.rstrip()`). */
  function TrimRight(s: string): (r: string)
    ensures |r| <= |s|
    ensures r == [] || !IsSpace(r[|r| - 1])
  {
    if s != [] && IsSpace(s[|s| - 1]) then TrimRight(s[..|s| - 1]) else s
  }

  /** Python's `str.strip()`. */
  function Strip(s: string): (r: string)
    ensures NoEdgeSpace(r)
    ensures |r| <= |s|
  {
    TrimRightSlice(TrimLeft(s));
    TrimRight(TrimLeft(s))
  }

  /** `re.sub(r"\s+", " ", s)`: every maximal run of whitespace becomes one space.
      Only whitespace is touched, and a run at either end stays a single space. */
  function Collapse(s: string): (r: string)
    ensures Collapsed(r)
    ensures NonSpace(r) == NonSpace(s)
    ensures (r != [] && IsSpace(r[0])) <==> (s != [] && IsSpace(s[0]))
    ensures r == [] <==> s == []
    decreases |s|
  {
    if s == [] then []
    else
      NonSpaceCons(s[0], s[1..]);
      if IsSpace(s[0]) then
        var t := TrimLeft(s[1..]);
        var u := Collapse(t);
        SpaceIsSpace();
        CollapsedCons(' ', u);
        NonSpaceCons(' ', u);
        NonSpaceTrimLeft(s[1..]);
        [' '] + u
      else
        var u := Collapse(s[1..]);
        CollapsedCons(s[0], u);
        NonSpaceCons(s[0], u);
        [s[0]] + u
  }

  /** `re.sub("\xa0", " ", s)`. */
  function ReplaceNbsp(s: string): string {
    seq(|s|, i requires 0 <= i < |s| => if s[i] == '\U{a0}' then ' ' else s[i])
  }

  /** A word of `str.split()`: a non-empty run without whitespace. */
  predicate IsWord(w: string) {
    w != [] && forall i :: 0 <= i < |w| ==> !IsSpace(w[i])
  }

  /** The longest prefix of `s` without whitespace. */
  function FirstWord(s: string): (w: string)
    ensures |w| <= |s| && w == s[..|w|]
    ensures forall i :: 0 <= i < |w| ==> !IsSpace(w[i])
    ensures |w| < |s| ==> IsSpace(s[|w|])
    ensures s != [] && !IsSpace(s[0]) ==> w != []
  {
    if s == [] || IsSpace(s[0]) then [] else [s[0]] + FirstWord(s[1..])
  }

  /** `s.split()`: the maximal runs of non-whitespace characters of `s`, in
      order. */
  function Words(s: string): (ws: seq<string>)
    ensures forall k :: 0 <= k < |ws| ==> IsWord(ws[k])
    decreases |s|
  {
    var t := TrimLeft(s);
    if t == [] then []
    else
      var w := FirstWord(t);
      [w] + Words(t[|w|..])
  }

  /** One cell of `clean_all_text_columns`: collapse whitespace runs, replace
      no-break spaces, strip. The result is clean, and it is the words of the
      input joined by single spaces (`" ".join(s.split())`). */
  function CleanText(s: string): (r: string)
    ensures IsClean(r)
    ensures NonSpace(r) == NonSpace(s)
    ensures r == Join(Words(s), " ")
  {
    var c := Collapse(s);
    NbspReplaceIsNoOp(c);
    StripKeepsCollapsed(c);
    NonSpaceStrip(c);
    StripCollapseIsJoinedWords(s);
    Strip(ReplaceNbsp(c))
  }

  /** ASCII case folding, as `str.lower()` acts on the literals compared here. */
  function LowerChar(c: char): char {
    if 'A' <= c <= 'Z' then (c as int + 32) as char else c
  }

  /** `s.lower()` on ASCII: no upper-case letter is left, and only upper-case
      letters change. */
  function Lower(s: string): (r: string)
    ensures |r| == |s|
    ensures forall i :: 0 <= i < |r| ==> !('A' <= r[i] <= 'Z')
    ensures forall i :: 0 <= i < |s| && !('A' <= s[i] <= 'Z') ==> r[i] == s[i]
  {
    seq(|s|, i requires 0 <= i < |s| => LowerChar(s[i]))
  }

  /** `a.lower() == b.lower()`: equal texts match, and matching texts have
      the same length. */
  predicate EqualsIgnoreCase(a: string, b: string)
    ensures a == b ==> EqualsIgnoreCase(a, b)
    ensures EqualsIgnoreCase(a, b) ==> |a| == |b|
  {
    Lower(a) == Lower(b)
  }

  /** `sep.join(parts)`: it begins with the first part. */
  function Join(parts: seq<string>, sep: string): (r: string)
    ensures parts != [] ==> |parts[0]| <= |r| && r[..|parts[0]|] == parts[0]
  {
    if parts == [] then ""
    else if |parts| == 1 then parts[0]
    else parts[0] + sep + Join(parts[1..], sep)
  }

  // ---------------------------------------------------------------- lemmas

  lemma SpaceIsSpace()
    ensures IsSpace(' ')
  {
  }

  lemma NbspIsSpace()
    ensures IsSpace('\U{a0}')
  {
  }

  lemma NonSpaceCons(c: char, u: string)
    ensures NonSpace([c] + u) == (if IsSpace(c) then [] else [c]) + NonSpace(u)
  {
    assert ([c] + u)[0] == c;
    assert ([c] + u)[1..] == u;
  }

  lemma {:induction false} NonSpaceAppend(a: string, b: string)
    ensures NonSpace(a + b) == NonSpace(a) + NonSpace(b)
  {
    if a == [] {
      assert a + b == b;
    } else {
      var h := if IsSpace(a[0]) then [] else [a[0]];
      assert (a + b)[0] == a[0];
      assert (a + b)[1..] == a[1..] + b;
      NonSpaceAppend(a[1..], b);
      calc {
        NonSpace(a + b);
        h + NonSpace(a[1..] + b);
        h + (NonSpace(a[1..]) + NonSpace(b));
        (h + NonSpace(a[1..])) + NonSpace(b);
        NonSpace(a) + NonSpace(b);
      }
    }
  }

  /** A string of whitespace only has no non-whitespace characters. */
  lemma {:induction false} NonSpaceAllSpace(s: string)
    requires forall i :: 0 <= i < |s| ==> IsSpace(s[i])
    ensures NonSpace(s) == []
  {
    if s != [] {
      assert IsSpace(s[0]);
      NonSpaceAllSpace(s[1..]);
    }
  }

  /** `TrimLeft` drops a prefix of `s` made of whitespace only. */
  lemma {:induction false} TrimLeftSlice(s: string)
    ensures var r := TrimLeft(s);
      r == s[|s| - |r|..] && forall i :: 0 <= i < |s| - |r| ==> IsSpace(s[i])
    decreases |s|
  {
    if s != [] && IsSpace(s[0]) {
      TrimLeftSlice(s[1..]);
      var r := TrimLeft(s);
      forall i | 0 <= i < |s| - |r| ensures IsSpace(s[i]) {
        if i > 0 {
          assert s[i] == s[1..][i - 1];
        }
      }
    }
  }

  /** `TrimRight` drops a suffix of `s` made of whitespace only. */
  lemma {:induction false} TrimRightSlice(s: string)
    ensures var r := TrimRight(s);
      r == s[..|r|] && forall i :: |r| <= i < |s| ==> IsSpace(s[i])
    decreases |s|
  {
    if s != [] && IsSpace(s[|s| - 1]) {
      TrimRightSlice(s[..|s| - 1]);
      var r := TrimRight(s);
      forall i | |r| <= i < |s| ensures IsSpace(s[i]) {
        if i < |s| - 1 {
          assert s[i] == s[..|s| - 1][i];
        }
      }
    }
  }

  /** `TrimLeft` removes only whitespace. */
  lemma NonSpaceTrimLeft(s: string)
    ensures NonSpace(TrimLeft(s)) == NonSpace(s)
  {
    var t := TrimLeft(s);
    var k := |s| - |t|;
    TrimLeftSlice(s);
    assert s == s[..k] + t;
    NonSpaceAppend(s[..k], t);
    NonSpaceAllSpace(s[..k]);
  }

  /** `TrimRight` removes only whitespace. */
  lemma NonSpaceTrimRight(s: string)
    ensures NonSpace(TrimRight(s)) == NonSpace(s)
  {
    var t := TrimRight(s);
    var k := |t|;
    TrimRightSlice(s);
    assert s == t + s[k..];
    NonSpaceAppend(t, s[k..]);
    forall i | 0 <= i < |s[k..]| ensures IsSpace(s[k..][i]) {
      assert s[k..][i] == s[k + i];
    }
    NonSpaceAllSpace(s[k..]);
  }

  /** Stripping removes only whitespace: every other character is kept, in order. */
  lemma NonSpaceStrip(s: string)
    ensures NonSpace(Strip(s)) == NonSpace(s)
  {
    NonSpaceTrimLeft(s);
    NonSpaceTrimRight(TrimLeft(s));
  }

  /** `Strip(s)` is the slice of `s` that starts after its leading whitespace. */
  lemma StripIsSlice(s: string)
    ensures var k := |s| - |TrimLeft(s)|;
      k + |Strip(s)| <= |s| && Strip(s) == s[k..k + |Strip(s)|]
  {
    var t := TrimLeft(s);
    var k := |s| - |t|;
    var r := TrimRight(t);
    TrimLeftSlice(s);
    TrimRightSlice(t);
    assert t == s[k..];
    assert r == t[..|r|];
  }

  /** Stripping a collapsed string leaves it collapsed. */
  lemma StripKeepsCollapsed(s: string)
    requires Collapsed(s)
    ensures Collapsed(Strip(s))
  {
    StripIsSlice(s);
    var k := |s| - |TrimLeft(s)|;
    CollapsedSlice(s, k, k + |Strip(s)|);
  }

  /** Prepending a character keeps a string collapsed when that character is
      not whitespace, or is a plain space followed by no whitespace. */
  lemma CollapsedCons(c: char, u: string)
    requires Collapsed(u)
    requires IsSpace(c) ==> c == ' ' && (u == [] || !IsSpace(u[0]))
    ensures Collapsed([c] + u)
  {
    var s := [c] + u;
    forall i | 0 <= i < |s| ensures CollapsedAt(s, i) {
      if i > 0 {
        assert CollapsedAt(u, i - 1);
        assert s[i] == u[i - 1];
        if i + 1 < |s| {
          assert s[i + 1] == u[i];
        }
      }
    }
  }

  /** Any slice of a collapsed string is collapsed. */
  lemma CollapsedSlice(s: string, i: nat, j: nat)
    requires Collapsed(s) && i <= j <= |s|
    ensures Collapsed(s[i..j])
  {
    forall p | 0 <= p < j - i ensures CollapsedAt(s[i..j], p) {
      assert CollapsedAt(s, i + p);
      assert s[i..j][p] == s[i + p];
      if p + 1 < j - i {
        assert s[i..j][p + 1] == s[i + p + 1];
      }
    }
  }

  /** Every no-break space is already gone after the `\s+` collapse, so the
      second replacement in `clean_all_text_columns` never changes a cell. */
  lemma NbspReplaceIsNoOp(s: string)
    requires Collapsed(s)
    ensures ReplaceNbsp(s) == s
  {
    NbspIsSpace();
    forall i | 0 <= i < |s| ensures ReplaceNbsp(s)[i] == s[i] {
      assert CollapsedAt(s, i);
    }
  }

  /** A collapsed string is left unchanged by the `\s+` collapse. */
  lemma {:induction false} CollapseFixpoint(s: string)
    requires Collapsed(s)
    ensures Collapse(s) == s
  {
    if s != [] {
      CollapsedSlice(s, 1, |s|);
      assert s[1..|s|] == s[1..];
      CollapseFixpoint(s[1..]);
      assert CollapsedAt(s, 0);
      if IsSpace(s[0]) {
        assert s[1..] == [] || !IsSpace(s[1..][0]);
        assert TrimLeft(s[1..]) == s[1..];
        assert Collapse(s) == [' '] + s[1..];
      } else {
        assert Collapse(s) == [s[0]] + s[1..];
      }
      assert s == [s[0]] + s[1..];
    }
  }

  /** A string without edge whitespace is its own strip. */
  lemma StripFixpoint(s: string)
    requires NoEdgeSpace(s)
    ensures Strip(s) == s
  {
  }

  /** The cleaned cells are exactly the fixpoints of cleaning. */
  lemma CleanTextFixpoints(s: string)
    ensures CleanText(s) == s <==> IsClean(s)
  {
    if IsClean(s) {
      CollapseFixpoint(s);
      NbspReplaceIsNoOp(s);
      StripFixpoint(s);
    }
  }

  /** Cleaning a cell twice is cleaning it once. */
  lemma CleanTextIdempotent(s: string)
    ensures CleanText(CleanText(s)) == CleanText(s)
  {
    CleanTextFixpoints(CleanText(s));
  }

  /** Stripping twice is stripping once. */
  lemma StripIdempotent(s: string)
    ensures Strip(Strip(s)) == Strip(s)
  {
    StripFixpoint(Strip(s));
  }

  /** A clean cell is its own strip, so the `.strip()` calls of the
      reconcilers do nothing on cleaned tables. */
  lemma CleanIsStripped(s: string)
    requires IsClean(s)
    ensures Strip(s) == s
  {
    StripFixpoint(s);
  }

  /** Joining a single part gives that part. */
  lemma JoinSingle(part: string, sep: string)
    ensures Join([part], sep) == part
  {
  }

  // ------------------------------------------------------ words of a cell

  /** Concatenation of sequences is associative. */
  lemma AppendAssoc<T>(x: seq<T>, y: seq<T>, z: seq<T>)
    ensures (x + y) + z == x + (y + z)
  {
  }


  /** A whitespace-only string. */
  predicate AllSpace(s: string) {
    forall i :: 0 <= i < |s| ==> IsSpace(s[i])
  }

  /** The collapse copies a first character that is not whitespace. */
  lemma CollapseWordHead(s: string)
    requires s != [] && !IsSpace(s[0])
    ensures Collapse(s) == [s[0]] + Collapse(s[1..])
  {
  }

  /** The collapse turns a leading whitespace run into one space. */
  lemma CollapseSpaceHead(s: string)
    requires s != [] && IsSpace(s[0])
    ensures Collapse(s) == [' '] + Collapse(TrimLeft(s[1..]))
  {
  }

  /** The `\s+` collapse copies a leading run without whitespace unchanged. */
  lemma {:induction false} CollapseWordPrefix(x: string, y: string)
    requires forall i :: 0 <= i < |x| ==> !IsSpace(x[i])
    ensures Collapse(x + y) == x + Collapse(y)
  {
    if x == [] {
      assert x + y == y;
    } else {
      var s := x + y;
      assert s[0] == x[0];
      assert s[1..] == x[1..] + y;
      CollapseWordHead(s);
      CollapseWordPrefix(x[1..], y);
      assert x == [x[0]] + x[1..];
      AppendAssoc([x[0]], x[1..], Collapse(y));
    }
  }

  /** Joining a part in front of at least one more part puts the separator
      between them. */
  lemma JoinCons(w: string, ws: seq<string>, sep: string)
    requires ws != []
    ensures Join([w] + ws, sep) == w + sep + Join(ws, sep)
  {
    assert ([w] + ws)[1..] == ws;
  }

  /** Left-stripping a string that starts without whitespace changes nothing. */
  lemma TrimLeftNoLead(s: string)
    requires s == [] || !IsSpace(s[0])
    ensures TrimLeft(s) == s
  {
  }

  /** Splitting ignores leading whitespace. */
  lemma WordsTrimLeft(s: string)
    ensures Words(TrimLeft(s)) == Words(s)
  {
    TrimLeftNoLead(TrimLeft(s));
  }

  /** Splitting a string that starts without whitespace takes its first
      word off the front. */
  lemma WordsCons(t: string)
    requires t != [] && !IsSpace(t[0])
    ensures Words(t) == [FirstWord(t)] + Words(t[|FirstWord(t)|..])
  {
    TrimLeftNoLead(t);
  }

  /** On a string that starts without whitespace, the collapse gives the
      words joined by single spaces, followed by a whitespace-only tail (one
      space when the string ends in whitespace). */
  lemma {:induction false} CollapseWords(t: string) returns (tail: string)
    requires t == [] || !IsSpace(t[0])
    ensures AllSpace(tail) && Collapse(t) == Join(Words(t), " ") + tail
    decreases |t|
  {
    if t == [] {
      tail := [];
      return;
    }
    var w := FirstWord(t);
    var rest := t[|w|..];
    WordsCons(t);
    assert t == w + rest;
    CollapseWordPrefix(w, rest);
    if rest == [] {
      tail := [];
      assert Words(t) == [w];
      assert Join(Words(t), " ") == w;
      assert Collapse(t) == w + [];
    } else {
      var t' := TrimLeft(rest);
      CollapseSpaceHead(rest);
      assert TrimLeft(rest[1..]) == t';
      WordsTrimLeft(rest);
      var ws' := Words(t');
      assert Words(t) == [w] + ws';
      var tail' := CollapseWords(t');
      SpaceIsSpace();
      if ws' == [] {
        tail := " " + tail';
        assert Words(t) == [w];
        assert Join(Words(t), " ") == w;
        assert Collapse(t) == w + (" " + ([] + tail'));
      } else {
        tail := tail';
        var j' := Join(ws', " ");
        JoinCons(w, ws', " ");
        assert Join(Words(t), " ") == w + " " + j';
        assert Collapse(t) == w + (" " + (j' + tail'));
        AppendAssoc(w + " ", j', tail');
        AppendAssoc(w, " ", j' + tail');
      }
    }
  }

  /** Words joined by single spaces have no whitespace at either end, and
      are empty only when there are no words. */
  lemma {:induction false} JoinedWordsEdges(ws: seq<string>)
    requires forall k :: 0 <= k < |ws| ==> IsWord(ws[k])
    ensures NoEdgeSpace(Join(ws, " "))
    ensures Join(ws, " ") == [] <==> ws == []
  {
    if |ws| > 1 {
      JoinedWordsEdges(ws[1..]);
      JoinCons(ws[0], ws[1..], " ");
      assert IsWord(ws[0]);
    } else if |ws| == 1 {
      assert IsWord(ws[0]);
    }
  }

  /** Left-stripping skips a whitespace-only prefix. */
  lemma {:induction false} TrimLeftSpaces(a: string, x: string)
    requires AllSpace(a)
    ensures TrimLeft(a + x) == TrimLeft(x)
  {
    if a == [] {
      assert a + x == x;
    } else {
      assert (a + x)[0] == a[0];
      assert (a + x)[1..] == a[1..] + x;
      TrimLeftSpaces(a[1..], x);
    }
  }

  /** Right-stripping skips a whitespace-only suffix. */
  lemma {:induction false} TrimRightSpaces(x: string, b: string)
    requires AllSpace(b)
    ensures TrimRight(x + b) == TrimRight(x)
    decreases |b|
  {
    if b == [] {
      assert x + b == x;
    } else {
      var b' := b[..|b| - 1];
      assert (x + b)[|x + b| - 1] == b[|b| - 1];
      assert (x + b)[..|x + b| - 1] == x + b';
      TrimRightSpaces(x, b');
    }
  }

  /** Stripping removes whitespace padding around a text without edge
      whitespace. */
  lemma StripPadded(a: string, j: string, b: string)
    requires AllSpace(a) && AllSpace(b) && NoEdgeSpace(j)
    ensures Strip(a + j + b) == j
  {
    assert a + j + b == a + (j + b);
    TrimLeftSpaces(a, j + b);
    if j == [] {
      assert j + b == b + [];
      TrimLeftSpaces(b, []);
    } else {
      assert (j + b)[0] == j[0];
      TrimLeftNoLead(j + b);
      TrimRightSpaces(j, b);
    }
  }

  /** The collapse turns leading whitespace into at most one space in front
      of the collapse of the rest. */
  lemma CollapseLead(s: string) returns (lead: string)
    ensures AllSpace(lead) && Collapse(s) == lead + Collapse(TrimLeft(s))
  {
    if s != [] && IsSpace(s[0]) {
      CollapseSpaceHead(s);
      SpaceIsSpace();
      lead := " ";
    } else {
      TrimLeftNoLead(s);
      lead := [];
    }
  }

  /** Collapsing and then stripping gives the words joined by single spaces. */
  lemma StripCollapseIsJoinedWords(s: string)
    ensures Strip(Collapse(s)) == Join(Words(s), " ")
  {
    var t := TrimLeft(s);
    var j := Join(Words(s), " ");
    var lead := CollapseLead(s);
    var tail := CollapseWords(t);
    WordsTrimLeft(s);
    JoinedWordsEdges(Words(s));
    assert Collapse(t) == j + tail;
    AppendAssoc(lead, j, tail);
    StripPadded(lead, j, tail);
  }

  /** Splitting the longest non-whitespace prefix off a word followed by
      whitespace (or nothing) gives that word. */
  lemma {:induction false} FirstWordOf(w: string, y: string)
    requires forall i :: 0 <= i < |w| ==> !IsSpace(w[i])
    requires y == [] || IsSpace(y[0])
    ensures FirstWord(w + y) == w
  {
    if w == [] {
      assert w + y == y;
    } else {
      assert (w + y)[0] == w[0];
      assert (w + y)[1..] == w[1..] + y;
      FirstWordOf(w[1..], y);
      assert w == [w[0]] + w[1..];
    }
  }

  /** Splitting words joined by single spaces gives the words back: the
      words of a cleaned cell are the cell's words. */
  lemma {:induction false} WordsOfJoin(ws: seq<string>)
    requires forall k :: 0 <= k < |ws| ==> IsWord(ws[k])
    ensures Words(Join(ws, " ")) == ws
  {
    if ws != [] {
      var w := ws[0];
      assert IsWord(w);
      if |ws| == 1 {
        assert Join(ws, " ") == w + [];
        FirstWordOf(w, []);
        TrimLeftNoLead(w);
        assert w[|w|..] == [];
      } else {
        var j := Join(ws[1..], " ");
        JoinedWordsEdges(ws[1..]);
        JoinCons(w, ws[1..], " ");
        var rest := [' '] + j;
        assert Join(ws, " ") == w + rest;
        SpaceIsSpace();
        FirstWordOf(w, rest);
        TrimLeftNoLead(w + rest);
        assert (w + rest)[|w|..] == rest;
        assert TrimLeft(rest) == TrimLeft(j);
        TrimLeftNoLead(j);
        WordsTrimLeft(rest);
        WordsOfJoin(ws[1..]);
        assert ws == [w] + ws[1..];
      }
    }
  }

  /** Two cells clean to the same text exactly when they have the same
      words: a whitespace run between two words counts as one separator,
      never as none. */
  lemma CleanTextSameWords(a: string, b: string)
    ensures CleanText(a) == CleanText(b) <==> Words(a) == Words(b)
  {
    WordsOfJoin(Words(a));
    WordsOfJoin(Words(b));
  }
}
