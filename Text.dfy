/** Option type shared by the whole model (JavaScript's `undefined`/`null`/`false` results). */
module Options {
  datatype Option<+T> = None | Some(value: T) {
    function GetOr(default: T): T {
      match this
      case Some(v) => v
      case None => default
    }
  }
}

/**
 * The JavaScript string operations the dispatcher relies on: `trim()`,
 * `split(/\s+/)`, `toLowerCase()` and `startsWith`.
 */
module Text {

  /** The characters that JavaScript's `\s` and `String.prototype.trim` treat as white space. */
  predicate IsSpace(c: char) {
    || c == ' ' || c == '\t' || c == '\n' || c == '\r' || c == '\U{B}' || c == '\U{C}'
    || c == '\U{A0}' || c == '\U{1680}' || ('\U{2000}' <= c <= '\U{200A}')
    || c == '\U{2028}' || c == '\U{2029}' || c == '\U{202F}' || c == '\U{205F}'
    || c == '\U{3000}' || c == '\U{FEFF}'
  }

  predicate NoSpace(s: string) {
    forall i :: 0 <= i < |s| ==> !IsSpace(s[i])
  }

  /** A word as the prefix parser produces it: non-empty and free of white space. */
  predicate IsWord(s: string) {
    s != "" && NoSpace(s)
  }

  /** `s` with its leading white space removed. */
  function TrimStart(s: string): (r: string)
    ensures |r| <= |s| && r == s[|s| - |r|..]
    ensures forall i :: 0 <= i < |s| - |r| ==> IsSpace(s[i])
    ensures r == "" || !IsSpace(r[0])
  {
    if s != "" && IsSpace(s[0]) then
      var r := TrimStart(s[1..]);
      assert s[1..][|s| - 1 - |r|..] == s[|s| - |r|..];
      assert forall i :: 0 < i < |s| - |r| ==> s[i] == s[1..][i - 1];
      r
    else s
  }

  /** `s` with its trailing white space removed. */
  function TrimEnd(s: string): (r: string)
    ensures |r| <= |s| && r == s[..|r|]
    ensures forall i :: |r| <= i < |s| ==> IsSpace(s[i])
    ensures r == "" || !IsSpace(r[|r| - 1])
  {
    if s != "" && IsSpace(s[|s| - 1]) then
      var r := TrimEnd(s[..|s| - 1]);
      assert s[..|s| - 1][..|r|] == s[..|r|];
      assert forall i :: |r| <= i < |s| - 1 ==> s[i] == s[..|s| - 1][i];
      r
    else s
  }

  /** The leading white space of `s`. */
  function Leading(s: string): string {
    s[..|s| - |TrimStart(s)|]
  }

  /** The trailing white space of `u`. */
  function TrimmedEnd(u: string): string {
    u[|TrimEnd(u)|..]
  }

  /** The trailing white space of `s` once its leading white space is gone. */
  function Trailing(s: string): string {
    TrimmedEnd(TrimStart(s))
  }

  /**
   * `String.prototype.trim`: `s` is its leading white space, then the result, then its
   * trailing white space; the result neither starts nor ends with white space.
   */
  function Trim(s: string): (r: string)
    ensures s == Leading(s) + r + Trailing(s)
    ensures AllSpace(Leading(s)) && AllSpace(Trailing(s))
    ensures r == "" || (!IsSpace(r[0]) && !IsSpace(r[|r| - 1]))
  {
    TrimParts(s);
    TrimEnd(TrimStart(s))
  }

  /** The three parts of `s` that `Trim` separates. */
  lemma {:induction false} TrimParts(s: string)
    ensures s == Leading(s) + TrimEnd(TrimStart(s)) + Trailing(s)
    ensures AllSpace(Leading(s)) && AllSpace(Trailing(s))
  {
    LeadingSplit(s);
    TrailingSplit(TrimStart(s));
    Regroup(s, Leading(s), TrimStart(s), TrimEnd(TrimStart(s)), Trailing(s));
  }

  lemma {:induction false} Regroup(s: string, a: string, u: string, b: string, c: string)
    requires s == a + u && u == b + c
    ensures s == a + b + c
  {
  }

  lemma {:induction false} LeadingSplit(s: string)
    ensures s == Leading(s) + TrimStart(s) && AllSpace(Leading(s))
  {
    var k := |s| - |TrimStart(s)|;
    assert s == s[..k] + s[k..];
    SpacePrefix(s, k);
  }

  lemma {:induction false} TrailingSplit(u: string)
    ensures u == TrimEnd(u) + TrimmedEnd(u) && AllSpace(TrimmedEnd(u))
  {
    var n := |TrimEnd(u)|;
    assert TrimEnd(u) == u[..n];
    assert u == u[..n] + u[n..];
    SpaceSuffix(u, n);
  }

  lemma {:induction false} SpacePrefix(s: string, k: nat)
    requires k <= |s| && forall i :: 0 <= i < k ==> IsSpace(s[i])
    ensures AllSpace(s[..k])
  {
    assert forall i :: 0 <= i < k ==> s[..k][i] == s[i];
  }

  lemma {:induction false} SpaceSuffix(s: string, k: nat)
    requires k <= |s| && forall i :: k <= i < |s| ==> IsSpace(s[i])
    ensures AllSpace(s[k..])
  {
    assert forall i :: 0 <= i < |s| - k ==> s[k..][i] == s[k + i];
  }

  predicate AllSpace(s: string) {
    forall i :: 0 <= i < |s| ==> IsSpace(s[i])
  }

  /** Trimming removes exactly the white space padding around a trimmed string. */
  lemma {:induction false} TrimPadded(pre: string, s: string, post: string)
    requires AllSpace(pre) && AllSpace(post)
    requires s != "" && !IsSpace(s[0]) && !IsSpace(s[|s| - 1])
    ensures Trim(pre + s + post) == s
  {
    TrimStartPadded(pre, s + post);
    assert pre + s + post == pre + (s + post);
    TrimEndPadded(s, post);
  }

  lemma {:induction false} TrimStartPadded(pre: string, t: string)
    requires AllSpace(pre) && (t == "" || !IsSpace(t[0]))
    ensures TrimStart(pre + t) == t
    decreases |pre|
  {
    if pre != "" {
      var s := pre + t;
      assert s[0] == pre[0] && IsSpace(s[0]);
      assert s[1..] == pre[1..] + t;
      TrimStartPadded(pre[1..], t);
      assert TrimStart(s) == TrimStart(s[1..]);
    } else {
      assert pre + t == t;
    }
  }

  lemma {:induction false} TrimEndPadded(t: string, post: string)
    requires AllSpace(post) && t != "" && !IsSpace(t[|t| - 1])
    ensures TrimEnd(t + post) == t
    decreases |post|
  {
    if post != "" {
      var s := t + post;
      assert s[|s| - 1] == post[|post| - 1] && IsSpace(s[|s| - 1]);
      assert s[..|s| - 1] == t + post[..|post| - 1];
      TrimEndPadded(t, post[..|post| - 1]);
      assert TrimEnd(s) == TrimEnd(s[..|s| - 1]);
    } else {
      assert t + post == t;
    }
  }

  /** Separators as `/\s+/` matches them: non-empty runs of white space. */
  predicate Separators(seps: seq<string>) {
    forall i :: 0 <= i < |seps| ==> seps[i] != "" && AllSpace(seps[i])
  }

  /**
   * Pieces as `split(/\s+/)` returns them: at least one, none holding white space, and
   * only the first and the last may be empty (for text that starts or ends with white space).
   */
  predicate Pieces(ws: seq<string>) {
    && |ws| >= 1
    && (forall i :: 0 <= i < |ws| ==> NoSpace(ws[i]))
    && (forall i :: 0 < i < |ws| - 1 ==> ws[i] != "")
  }

  /** The pieces with the separators between them: `ws[0] + seps[0] + ws[1] + ...`. */
  function Join(ws: seq<string>, seps: seq<string>): string
    requires |ws| >= 1 && |seps| == |ws| - 1
    decreases |ws|
  {
    if |ws| == 1 then ws[0] else ws[0] + seps[0] + Join(ws[1..], seps[1..])
  }

  /** The white-space runs `s.split(/\s+/)` cuts at, in order. */
  function SplitSeps(s: string): seq<string>
    decreases |s|
  {
    if s == "" then []
    else if IsSpace(s[0]) then
      [Leading(s)] + SplitSeps(TrimStart(s))
    else SplitSeps(s[1..])
  }

  /** An empty first piece: the joined text starts with the first separator. */
  lemma {:induction false} JoinEmptyFirst(sep: string, ws: seq<string>, seps: seq<string>)
    requires |ws| >= 1 && |seps| == |ws| - 1
    ensures Join([""] + ws, [sep] + seps) == sep + Join(ws, seps)
  {
    assert ([""] + ws)[1..] == ws;
    assert ([sep] + seps)[1..] == seps;
  }

  /** A character put in front of the first piece is put in front of the joined text. */
  lemma {:induction false} JoinGlue(c: char, ws: seq<string>, seps: seq<string>)
    requires |ws| >= 1 && |seps| == |ws| - 1
    ensures Join([[c] + ws[0]] + ws[1..], seps) == [c] + Join(ws, seps)
  {
    var ws' := [[c] + ws[0]] + ws[1..];
    if |ws| > 1 {
      assert ws'[1..] == ws[1..];
      assert ws'[0] + seps[0] + Join(ws[1..], seps[1..]) == [c] + (ws[0] + seps[0] + Join(ws[1..], seps[1..]));
    }
  }

  lemma {:induction false} SeparatorsCons(sep: string, seps: seq<string>)
    requires sep != "" && AllSpace(sep) && Separators(seps)
    ensures Separators([sep] + seps)
  {
    assert forall i :: 0 < i < |seps| + 1 ==> ([sep] + seps)[i] == seps[i - 1];
  }

  lemma {:induction false} PiecesEmptyFirst(ws: seq<string>)
    requires Pieces(ws) && (|ws| == 1 || ws[0] != "")
    ensures Pieces([""] + ws)
  {
    assert forall i :: 0 < i < |ws| + 1 ==> ([""] + ws)[i] == ws[i - 1];
  }

  lemma {:induction false} PiecesGlue(c: char, ws: seq<string>)
    requires !IsSpace(c) && Pieces(ws)
    ensures Pieces([[c] + ws[0]] + ws[1..])
  {
    var w := [c] + ws[0];
    assert NoSpace(w) by {
      forall i | 0 < i < |w| ensures !IsSpace(w[i]) {
        assert w[i] == ws[0][i - 1];
      }
    }
    assert forall i :: 0 < i < |ws| ==> ([w] + ws[1..])[i] == ws[i];
  }

  /**
   * `s.split(/\s+/)`: the pieces between maximal runs of white space. Joined back with
   * those runs they give `s` again; a leading or trailing run yields an empty first or
   * last piece, and the empty string yields `[""]`.
   */
  function SplitWs(s: string): (r: seq<string>)
    ensures Pieces(r)
    ensures |SplitSeps(s)| == |r| - 1 && Separators(SplitSeps(s))
    ensures Join(r, SplitSeps(s)) == s
    ensures s != "" && !IsSpace(s[0]) ==> r[0] != ""
    decreases |s|
  {
    if s == "" then [""]
    else if IsSpace(s[0]) then
      var t := TrimStart(s);
      var rest := SplitWs(t);
      LeadingSplit(s);
      SeparatorsCons(Leading(s), SplitSeps(t));
      PiecesEmptyFirst(rest);
      JoinEmptyFirst(Leading(s), rest, SplitSeps(t));
      [""] + rest
    else
      var rest := SplitWs(s[1..]);
      JoinGlue(s[0], rest, SplitSeps(s[1..]));
      PiecesGlue(s[0], rest);
      assert [s[0]] + s[1..] == s;
      [[s[0]] + rest[0]] + rest[1..]
  }

  /** Splitting a string that begins with a word glues the word to the first piece of the rest. */
  lemma {:induction false} SplitAfterWord(w: string, t: string)
    requires NoSpace(w)
    ensures SplitWs(w + t) == [w + SplitWs(t)[0]] + SplitWs(t)[1..]
    decreases |w|
  {
    if w != "" {
      assert (w + t)[1..] == w[1..] + t;
      SplitAfterWord(w[1..], t);
      assert [w[0]] + (w[1..] + SplitWs(t)[0]) == w + SplitWs(t)[0];
    } else {
      assert w + t == t;
      assert w + SplitWs(t)[0] == SplitWs(t)[0];
      assert SplitWs(t) == [SplitWs(t)[0]] + SplitWs(t)[1..];
    }
  }

  /** Joined text with a non-empty first piece starts with that piece's first character. */
  lemma {:induction false} JoinFirst(ws: seq<string>, seps: seq<string>)
    requires |ws| >= 1 && |seps| == |ws| - 1 && ws[0] != ""
    ensures Join(ws, seps) != "" && Join(ws, seps)[0] == ws[0][0]
  {
    if |ws| > 1 {
      assert Join(ws, seps) == ws[0] + (seps[0] + Join(ws[1..], seps[1..]));
    }
  }

  /** Joined text with a non-empty last piece ends with that piece's last character. */
  lemma {:induction false} JoinLast(ws: seq<string>, seps: seq<string>)
    requires |ws| >= 1 && |seps| == |ws| - 1 && ws[|ws| - 1] != ""
    ensures var j := Join(ws, seps); j != "" && j[|j| - 1] == ws[|ws| - 1][|ws[|ws| - 1]| - 1]
    decreases |ws|
  {
    if |ws| > 1 {
      JoinLast(ws[1..], seps[1..]);
      var tail := Join(ws[1..], seps[1..]);
      assert Join(ws, seps) == (ws[0] + seps[0]) + tail;
    }
  }

  /** A white-space run in front of text that starts with a word adds one empty piece. */
  lemma {:induction false} SplitAfterRun(sep: string, t: string)
    requires sep != "" && AllSpace(sep) && (t == "" || !IsSpace(t[0]))
    ensures SplitWs(sep + t) == [""] + SplitWs(t)
  {
    TrimStartPadded(sep, t);
  }

  /** A word, a white-space run, then text starting with a word: the word becomes a piece of its own. */
  lemma {:induction false} SplitPrepend(w: string, sep: string, t: string)
    requires NoSpace(w) && sep != "" && AllSpace(sep) && (t == "" || !IsSpace(t[0]))
    ensures SplitWs(w + (sep + t)) == [w] + SplitWs(t)
  {
    SplitAfterRun(sep, t);
    SplitAfterWord(w, sep + t);
    assert w + "" == w;
    assert ([""] + SplitWs(t))[1..] == SplitWs(t);
  }

  /** A single piece without white space splits to itself. */
  lemma {:induction false} SplitWord(w: string)
    requires NoSpace(w)
    ensures SplitWs(w) == [w]
  {
    SplitAfterWord(w, "");
    assert w + "" == w;
  }

  lemma {:induction false} PiecesTail(ws: seq<string>)
    requires Pieces(ws) && |ws| > 1
    ensures Pieces(ws[1..])
  {
    assert forall i :: 0 <= i < |ws| - 1 ==> ws[1..][i] == ws[i + 1];
  }

  /** Joined pieces whose first piece is free of white space do not start with white space. */
  lemma {:induction false} JoinStartsClean(ws: seq<string>, seps: seq<string>)
    requires Pieces(ws) && |seps| == |ws| - 1 && (|ws| == 1 || ws[0] != "")
    ensures var j := Join(ws, seps); j == "" || !IsSpace(j[0])
  {
    if ws[0] != "" {
      JoinFirst(ws, seps);
      assert NoSpace(ws[0]);
    }
  }

  /**
   * Pieces joined by any white-space runs split back into the same pieces: `split(/\s+/)`
   * treats one space, several spaces, tabs and line breaks alike.
   */
  lemma {:induction false} SplitJoin(ws: seq<string>, seps: seq<string>)
    requires Pieces(ws) && |seps| == |ws| - 1 && Separators(seps)
    ensures SplitWs(Join(ws, seps)) == ws
    decreases |ws|
  {
    if |ws| == 1 {
      SplitWord(ws[0]);
    } else {
      var tail := Join(ws[1..], seps[1..]);
      PiecesTail(ws);
      SplitJoin(ws[1..], seps[1..]);
      JoinStartsClean(ws[1..], seps[1..]);
      SplitPrepend(ws[0], seps[0], tail);
      assert Join(ws, seps) == ws[0] + (seps[0] + tail);
      assert [ws[0]] + ws[1..] == ws;
    }
  }

  /** `toLowerCase` on one character, for the ASCII letters. */
  function LowerChar(c: char): (r: char)
    ensures 'A' <= c <= 'Z' ==> 'a' <= r <= 'z' && r as int == c as int + 32
    ensures !('A' <= c <= 'Z') ==> r == c
  {
    if 'A' <= c <= 'Z' then (c as int - 'A' as int + 'a' as int) as char else c
  }

  /** `toLowerCase` on a string, for the ASCII letters. */
  function Lower(s: string): (r: string)
    ensures |r| == |s|
  {
    if s == "" then "" else [LowerChar(s[0])] + Lower(s[1..])
  }

  /** Lower-casing works character by character. */
  lemma {:induction false} LowerAt(s: string)
    ensures forall i :: 0 <= i < |s| ==> Lower(s)[i] == LowerChar(s[i])
  {
    if s != "" {
      LowerAt(s[1..]);
      assert forall i :: 0 < i < |s| ==> s[i] == s[1..][i - 1];
    }
  }

  /** `s.startsWith(p)`. */
  predicate StartsWith(s: string, p: string) {
    p <= s
  }
}
