/**
 The dashboard's HTML escaping: five successive `str.replace` passes, with
 `&` rewritten first so that the entities introduced by the later passes are
 not escaped a second time.
 */
module HtmlEscape {

  /** `str.replace` for a one-character pattern: every `c` in `s` becomes `rep`. */
  function ReplaceChar(s: string, c: char, rep: string): (r: string)
    ensures c !in s ==> r == s
    ensures c !in rep ==> c !in r
  {
    if s == [] then [] else (if s[0] == c then rep else [s[0]]) + ReplaceChar(s[1..], c, rep)
  }

  /** The five passes, in the order the dashboard applies them. */
  function Escape(s: string): (r: string)
  {
    ReplaceChar(ReplaceChar(ReplaceChar(ReplaceChar(ReplaceChar(
      s, '&', "&amp;"), '<', "&lt;"), '>', "&gt;"), '"', "&quot;"), '\'', "&#39;")
  }

  /** The characters the escaping rewrites. */
  predicate IsSpecial(x: char)
  {
    x == '&' || x == '<' || x == '>' || x == '"' || x == '\''
  }

  /** Reference definition: the replacement text of one character in a single left-to-right pass. */
  function EscapeChar(x: char): (r: string)
  {
    match x
    case '&' => "&amp;"
    case '<' => "&lt;"
    case '>' => "&gt;"
    case '"' => "&quot;"
    case '\'' => "&#39;"
    case _ => [x]
  }

  /** Reference definition: every character replaced by its own replacement text. */
  function EscapeEach(s: string): (r: string)
  {
    if s == [] then [] else EscapeChar(s[0]) + EscapeEach(s[1..])
  }

  predicate StartsWith(t: string, p: string)
  {
    |p| <= |t| && t[..|p|] == p
  }

  /** The text from position `i` on begins with one of the five entities. */
  predicate EntityAt(t: string, i: nat)
    requires i <= |t|
  {
    var u := t[i..];
    StartsWith(u, "&amp;") || StartsWith(u, "&lt;") || StartsWith(u, "&gt;")
    || StartsWith(u, "&quot;") || StartsWith(u, "&#39;")
  }

  /** The inverse mapping: entities back to the characters they stand for. */
  function Unescape(t: string): (r: string)
    decreases |t|
  {
    if t == [] then []
    else if StartsWith(t, "&amp;") then ['&'] + Unescape(t[5..])
    else if StartsWith(t, "&lt;") then ['<'] + Unescape(t[4..])
    else if StartsWith(t, "&gt;") then ['>'] + Unescape(t[4..])
    else if StartsWith(t, "&quot;") then ['"'] + Unescape(t[6..])
    else if StartsWith(t, "&#39;") then ['\''] + Unescape(t[5..])
    else [t[0]] + Unescape(t[1..])
  }

  lemma {:induction false} ReplaceCharAppend(a: string, b: string, c: char, rep: string)
    ensures ReplaceChar(a + b, c, rep) == ReplaceChar(a, c, rep) + ReplaceChar(b, c, rep)
    decreases |a|
  {
    if a == [] {
      assert a + b == b;
    } else {
      assert (a + b)[0] == a[0];
      assert (a + b)[1..] == a[1..] + b;
      ReplaceCharAppend(a[1..], b, c, rep);
    }
  }

  lemma EscapeAppend(a: string, b: string)
    ensures Escape(a + b) == Escape(a) + Escape(b)
  {
    var a1, b1 := ReplaceChar(a, '&', "&amp;"), ReplaceChar(b, '&', "&amp;");
    ReplaceCharAppend(a, b, '&', "&amp;");
    var a2, b2 := ReplaceChar(a1, '<', "&lt;"), ReplaceChar(b1, '<', "&lt;");
    ReplaceCharAppend(a1, b1, '<', "&lt;");
    var a3, b3 := ReplaceChar(a2, '>', "&gt;"), ReplaceChar(b2, '>', "&gt;");
    ReplaceCharAppend(a2, b2, '>', "&gt;");
    var a4, b4 := ReplaceChar(a3, '"', "&quot;"), ReplaceChar(b3, '"', "&quot;");
    ReplaceCharAppend(a3, b3, '"', "&quot;");
    ReplaceCharAppend(a4, b4, '\'', "&#39;");
  }

  lemma EscapeSingle(x: char)
    ensures Escape([x]) == EscapeChar(x)
  {
  }

  /**
   The five sequential passes equal the single-pass reference: because `&` is
   handled first, no entity produced by a later pass is touched again.
   */
  lemma {:induction false} EscapeIsSinglePass(s: string)
    ensures Escape(s) == EscapeEach(s)
    decreases |s|
  {
    if s != [] {
      assert s == [s[0]] + s[1..];
      EscapeAppend([s[0]], s[1..]);
      EscapeSingle(s[0]);
      EscapeIsSinglePass(s[1..]);
    }
  }

  lemma {:induction false} EscapeEachHasNoMarkup(s: string)
    ensures var r := EscapeEach(s); '<' !in r && '>' !in r && '"' !in r && '\'' !in r
    decreases |s|
  {
    if s != [] {
      EscapeEachHasNoMarkup(s[1..]);
    }
  }

  /** The escaped text never holds a raw `<`, `>`, `"` or `'`. */
  lemma NoRawMarkup(s: string)
    ensures var r := Escape(s); '<' !in r && '>' !in r && '"' !in r && '\'' !in r
  {
    EscapeIsSinglePass(s);
    EscapeEachHasNoMarkup(s);
  }

  /** Every `&` in `t` is the first character of an entity. */
  predicate AmpersandsAreEntities(t: string)
  {
    forall i | 0 <= i < |t| && t[i] == '&' :: EntityAt(t, i)
  }

  lemma {:induction false} EscapeEachAmpersands(s: string)
    ensures AmpersandsAreEntities(EscapeEach(s))
    decreases |s|
  {
    if s != [] {
      var e, rest := EscapeChar(s[0]), EscapeEach(s[1..]);
      var r := e + rest;
      EscapeEachAmpersands(s[1..]);
      assert r == EscapeEach(s);
      forall i | 0 <= i < |r| && r[i] == '&'
        ensures EntityAt(r, i)
      {
        if i < |e| {
          EntityAtStart(s[0], rest, i);
        } else {
          assert rest[i - |e|] == '&';
          EntityAtShift(e, rest, i - |e|);
        }
      }
    }
  }

  lemma EntityAtShift(e: string, rest: string, j: nat)
    requires j <= |rest| && EntityAt(rest, j)
    ensures EntityAt(e + rest, |e| + j)
  {
  }

  lemma EntityAtStart(x: char, rest: string, i: nat)
    requires i < |EscapeChar(x)| && (EscapeChar(x) + rest)[i] == '&'
    ensures EntityAt(EscapeChar(x) + rest, i)
  {
  }

  /** Every `&` in the escaped text begins one of the five entities. */
  lemma AmpersandsBeginEntities(s: string)
    ensures AmpersandsAreEntities(Escape(s))
  {
    EscapeIsSinglePass(s);
    EscapeEachAmpersands(s);
  }

  lemma {:induction false} EscapeEachLength(s: string)
    ensures |EscapeEach(s)| >= |s|
    ensures |EscapeEach(s)| == |s| <==> forall i | 0 <= i < |s| :: !IsSpecial(s[i])
    ensures (forall i | 0 <= i < |s| :: !IsSpecial(s[i])) ==> EscapeEach(s) == s
    decreases |s|
  {
    if s != [] {
      EscapeEachLength(s[1..]);
      assert s == [s[0]] + s[1..];
      if !IsSpecial(s[0]) && forall i | 0 <= i < |s[1..]| :: !IsSpecial(s[1..][i]) {
        forall i | 0 <= i < |s|
          ensures !IsSpecial(s[i])
        {
          if i > 0 { assert s[i] == s[1..][i - 1]; }
        }
      }
      if forall i | 0 <= i < |s| :: !IsSpecial(s[i]) {
        forall i | 0 <= i < |s[1..]|
          ensures !IsSpecial(s[1..][i])
        {
          assert s[1..][i] == s[i + 1];
        }
      }
    }
  }

  /**
   Escaping never shortens its input, and it leaves the input exactly as it
   was if and only if none of `& < > " '` occurs in it.
   */
  lemma EscapeLength(s: string)
    ensures |Escape(s)| >= |s|
    ensures Escape(s) == s <==> forall i | 0 <= i < |s| :: !IsSpecial(s[i])
  {
    EscapeIsSinglePass(s);
    EscapeEachLength(s);
  }

  lemma StartsWithAppend(e: string, t: string, p: string)
    requires |p| <= |e|
    ensures StartsWith(e + t, p) <==> StartsWith(e, p)
  {
  }

  lemma Mismatch(u: string, p: string, k: nat)
    requires k < |u| && k < |p| && u[k] != p[k]
    ensures !StartsWith(u, p)
  {
  }

  /** An entity followed by any text unescapes to its character, then the rest. */
  lemma UnescapeAfterEscapeChar(x: char, t: string)
    ensures Unescape(EscapeChar(x) + t) == [x] + Unescape(t)
  {
    var e := EscapeChar(x);
    var u := e + t;
    assert u[|e|..] == t;
    if !IsSpecial(x) {
      assert u[0] == x;
      Mismatch(u, "&amp;", 0);
      Mismatch(u, "&lt;", 0);
      Mismatch(u, "&gt;", 0);
      Mismatch(u, "&quot;", 0);
      Mismatch(u, "&#39;", 0);
    } else if x == '&' {
      StartsWithAppend(e, t, "&amp;");
    } else if x == '<' {
      Mismatch(u, "&amp;", 1);
      StartsWithAppend(e, t, "&lt;");
    } else if x == '>' {
      Mismatch(u, "&amp;", 1);
      Mismatch(u, "&lt;", 1);
      StartsWithAppend(e, t, "&gt;");
    } else if x == '"' {
      Mismatch(u, "&amp;", 1);
      Mismatch(u, "&lt;", 1);
      Mismatch(u, "&gt;", 1);
      StartsWithAppend(e, t, "&quot;");
    } else {
      Mismatch(u, "&amp;", 1);
      Mismatch(u, "&lt;", 1);
      Mismatch(u, "&gt;", 1);
      Mismatch(u, "&quot;", 1);
      StartsWithAppend(e, t, "&#39;");
    }
  }

  lemma {:induction false} UnescapeEscapeEach(s: string)
    ensures Unescape(EscapeEach(s)) == s
    decreases |s|
  {
    if s != [] {
      UnescapeAfterEscapeChar(s[0], EscapeEach(s[1..]));
      UnescapeEscapeEach(s[1..]);
      assert s == [s[0]] + s[1..];
    }
  }

  /** Unescaping recovers the original text, so distinct strings never escape alike. */
  lemma UnescapeEscape(s: string)
    ensures Unescape(Escape(s)) == s
  {
    EscapeIsSinglePass(s);
    UnescapeEscapeEach(s);
  }

  lemma EscapeInjective(s: string, t: string)
    requires Escape(s) == Escape(t)
    ensures s == t
  {
    UnescapeEscape(s);
    UnescapeEscape(t);
  }
}
