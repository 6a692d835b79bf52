/** The pure helpers of generate-codepen.js: picking the one file of a folder
    with a given extension, cutting the `<body>` out of an HTML page and
    dropping its scripts, and escaping the prefill payload for an HTML
    attribute. Directory listing, file reading and the browser are left out;
    a listing is given as a sequence of entries and `path.join` as a
    parameter. Regular expressions are modelled by the scans they perform. */
module CodePen {
  import opened Wrappers
  import opened Text

  // ---------------------------------------------------------------------
  // findSingleFileByExtensions

  datatype DirEntry = DirEntry(name: string, isFile: bool)

  /** `exts.some(ext => name.toLowerCase().endsWith(ext))`. */
  predicate HasExt(name: string, exts: seq<string>)
  {
    exists ext :: ext in exts && EndsWith(Lower(name), ext)
  }

  /** The names of the regular files with one of the extensions, in listing
      order. */
  function Matching(entries: seq<DirEntry>, exts: seq<string>): (r: seq<string>)
    ensures forall name :: name in r <==> exists e :: e in entries && e.isFile && e.name == name && HasExt(name, exts)
    decreases |entries|
  {
    if |entries| == 0 then []
    else
      var rest := Matching(entries[1..], exts);
      assert forall e :: e in entries <==> e == entries[0] || e in entries[1..];
      if entries[0].isFile && HasExt(entries[0].name, exts) then [entries[0].name] + rest else rest
  }

  /** `list.join(sep)` for a string separator. */
  function JoinWith(pieces: seq<string>, sep: string): string
    decreases |pieces|
  {
    if |pieces| == 0 then ""
    else if |pieces| == 1 then pieces[0]
    else pieces[0] + sep + JoinWith(pieces[1..], sep)
  }

  /** `findSingleFileByExtensions(dir, exts)` over the listing `entries`. */
  function FindSingleFile(dir: string, entries: seq<DirEntry>, exts: seq<string>, join: (string, string) -> string)
    : (r: Result<string, string>)
    ensures r.Success? <==> |Matching(entries, exts)| == 1
    ensures r.Success? ==> exists e :: e in entries && e.isFile && HasExt(e.name, exts) && r.value == join(dir, e.name)
    ensures |Matching(entries, exts)| == 0 ==>
      r == Failure("No files found with extensions " + JoinWith(exts, ", ") + " in " + dir)
    ensures |Matching(entries, exts)| > 1 ==>
      r == Failure("Expected exactly one of " + JoinWith(exts, ", ") + " in " + dir + ", found: "
                   + JoinWith(Matching(entries, exts), ", "))
  {
    var matches := Matching(entries, exts);
    if |matches| == 0 then Failure("No files found with extensions " + JoinWith(exts, ", ") + " in " + dir)
    else if |matches| > 1 then
      Failure("Expected exactly one of " + JoinWith(exts, ", ") + " in " + dir + ", found: " + JoinWith(matches, ", "))
    else
      assert matches[0] in matches;
      Success(join(dir, matches[0]))
  }

  /** On success the chosen file is the only candidate: every regular file of
      the listing with a wanted extension has that name. */
  lemma FoundFileIsUnique(dir: string, entries: seq<DirEntry>, exts: seq<string>, join: (string, string) -> string)
    requires FindSingleFile(dir, entries, exts, join).Success?
    ensures forall e :: e in entries && e.isFile && HasExt(e.name, exts) ==>
      FindSingleFile(dir, entries, exts, join).value == join(dir, e.name)
  {
    var matches := Matching(entries, exts);
    forall e | e in entries && e.isFile && HasExt(e.name, exts)
      ensures FindSingleFile(dir, entries, exts, join).value == join(dir, e.name)
    {
      assert e.name in matches;
    }
  }

  /** Directories never count, whatever their name. */
  lemma DirectoriesIgnored(entries: seq<DirEntry>, exts: seq<string>, d: DirEntry)
    ensures Matching(entries + [d.(isFile := false)], exts) == Matching(entries, exts)
    decreases |entries|
  {
    if |entries| > 0 {
      assert (entries + [d.(isFile := false)])[1..] == entries[1..] + [d.(isFile := false)];
      DirectoriesIgnored(entries[1..], exts, d);
    } else {
      assert [d.(isFile := false)][1..] == [];
    }
  }

  // ---------------------------------------------------------------------
  // Case-insensitive scanning, as the `i` flag does for ASCII letters

  /** `t` starts with `pat` (given in lower case), ignoring ASCII case. */
  predicate StartsCI(t: string, pat: string)
  {
    |pat| <= |t| && Lower(t[..|pat|]) == pat
  }

  /** The first index at or after `from` where `pat` starts, ignoring case. */
  function FindFrom(s: string, pat: string, from: nat): (r: Option<nat>)
    ensures r.Some? ==> from <= r.value && r.value + |pat| <= |s| && StartsCI(s[r.value..], pat)
    ensures r.Some? ==> forall m {:trigger StartsCI(s[m..], pat)} :: from <= m < r.value ==> !StartsCI(s[m..], pat)
    ensures r.None? ==> forall m {:trigger StartsCI(s[m..], pat)} :: from <= m <= |s| ==> !StartsCI(s[m..], pat)
    decreases |s| - from
  {
    if from + |pat| > |s| then None
    else if StartsCI(s[from..], pat) then Some(from)
    else FindFrom(s, pat, from + 1)
  }

  /** `\w`: a character a word boundary `\b` separates from a non-word one. */
  predicate IsWordChar(c: char)
  {
    'a' <= c <= 'z' || 'A' <= c <= 'Z' || '0' <= c <= '9' || c == '_'
  }

  // ---------------------------------------------------------------------
  // extractHtmlBody: the body match

  /** `/<body[^>]*>([\s\S]*?)<\/body>/i` matching at `i`: the opening tag
      starts at `i`, its first `>` is at `j`, and the first `</body>` after it
      is at `k`; the captured content is `html[j + 1..k]`. */
  predicate BodyMatch(html: string, i: nat, j: nat, k: nat)
  {
    i + 5 <= j < k && k + 7 <= |html|
    && StartsCI(html[i..], "<body")
    && html[j] == '>' && (forall m :: i + 5 <= m < j ==> html[m] != '>')
    && StartsCI(html[k..], "</body>")
    && (forall m :: j + 1 <= m < k ==> !StartsCI(html[m..], "</body>"))
  }

  /** Where the body match is, if anywhere: only the first `<body` has to be
      tried, because any later one reaches the same or a later `>` and so
      finds no `</body>` the first one missed. */
  function BodySpan(html: string): (r: Option<(nat, nat, nat)>)
    ensures r.Some? ==> BodyMatch(html, r.value.0, r.value.1, r.value.2)
  {
    match FindFrom(html, "<body", 0)
    case None => None
    case Some(i) =>
      match FindFrom(html, ">", i + 5)
      case None => None
      case Some(j) =>
        FirstGt(html, i + 5, j);
        match FindFrom(html, "</body>", j + 1)
        case None => None
        case Some(k) => Some((i, j, k))
  }

  /** The search for `>` stops at the first `>`. */
  lemma FirstGt(html: string, from: nat, j: nat)
    requires FindFrom(html, ">", from) == Some(j)
    ensures j < |html| && html[j] == '>'
    ensures forall m :: from <= m < j ==> html[m] != '>'
  {
    StartsGt(html[j..]);
    forall m | from <= m < j ensures html[m] != '>' {
      StartsGt(html[m..]);
    }
  }

  lemma StartsGt(t: string)
    ensures StartsCI(t, ">") <==> |t| >= 1 && t[0] == '>'
  {
    if |t| >= 1 {
      assert Lower(t[..1])[0] == LowerChar(t[0]);
    }
  }

  /** `BodySpan` finds what the regular expression finds: the leftmost match,
      and no match when it finds none. */
  lemma BodySpanLeftmost(html: string)
    ensures BodySpan(html).Some? ==>
      forall i: nat, j: nat, k: nat :: BodyMatch(html, i, j, k) ==> BodySpan(html).value.0 <= i
    ensures BodySpan(html).None? ==> forall i: nat, j: nat, k: nat :: !BodyMatch(html, i, j, k)
  {
    match FindFrom(html, "<body", 0)
    case None =>
    case Some(i0) =>
      match FindFrom(html, ">", i0 + 5)
      case None =>
        forall i: nat, j: nat, k: nat ensures !BodyMatch(html, i, j, k) {
          if j < |html| {
            StartsGt(html[j..]);
          }
        }
      case Some(j0) =>
        forall i: nat, j: nat, k: nat | FindFrom(html, "</body>", j0 + 1).None?
          ensures !BodyMatch(html, i, j, k)
        {
          if j < |html| {
            StartsGt(html[j..]);
          }
        }
  }

  /** The match at a given start is unique: the tag end and the closing tag
      are forced. */
  lemma BodyMatchUnique(html: string, i: nat, j: nat, k: nat, j': nat, k': nat)
    requires BodyMatch(html, i, j, k) && BodyMatch(html, i, j', k')
    ensures j == j' && k == k'
  {
  }

  /** `bodyMatch ? bodyMatch[1] : html`. */
  function Body(html: string): (r: string)
    ensures BodySpan(html).None? ==> r == html
    ensures BodySpan(html).Some? ==> r == html[BodySpan(html).value.1 + 1..BodySpan(html).value.2]
  {
    match BodySpan(html)
    case None => html
    case Some((i, j, k)) => html[j + 1..k]
  }

  // ---------------------------------------------------------------------
  // extractHtmlBody: dropping scripts

  datatype ScriptPattern =
    | Block        // /<script\b[^>]*>[\s\S]*?<\/script>/gi
    | SelfClosing  // /<script\b[^>]*\/>/gi

  /** The length of the match of `p` anchored at the start of `t`, if any. */
  function MatchAt(p: ScriptPattern, t: string): (r: Option<nat>)
    ensures r.Some? ==> 1 <= r.value <= |t|
  {
    if !StartsCI(t, "<script") then None
    else if |t| > 7 && IsWordChar(t[7]) then None
    else
      match FindFrom(t, ">", 7)
      case None => None
      case Some(q) =>
        match p
        case Block =>
          (match FindFrom(t, "</script>", q + 1)
           case None => None
           case Some(e) => Some(e + 9))
        case SelfClosing =>
          if q >= 8 && t[q - 1] == '/' then Some(q + 1) else None
  }

  /** `s.replace(p, '')`: scan left to right, drop each match and carry on
      after it, without looking again at what the removal joined up. */
  function Strip(p: ScriptPattern, s: string): (r: string)
    ensures |r| <= |s|
    decreases |s|
  {
    if |s| == 0 then ""
    else
      match MatchAt(p, s)
      case Some(n) => Strip(p, s[n..])
      case None => [s[0]] + Strip(p, s[1..])
  }

  /** A scan that removes nothing met no match anywhere. */
  lemma {:induction false} NoShrinkNoMatch(p: ScriptPattern, s: string, at: nat)
    requires at < |s| && |Strip(p, s)| >= |s|
    ensures MatchAt(p, s[at..]).None?
    decreases |s|
  {
    assert MatchAt(p, s).None?;
    if at == 0 {
      assert s[at..] == s;
    } else {
      assert s[1..][at - 1..] == s[at..];
      NoShrinkNoMatch(p, s[1..], at - 1);
    }
  }

  /** A scan that keeps the length keeps the text. */
  lemma {:induction false} StripSameLength(p: ScriptPattern, s: string)
    requires |Strip(p, s)| >= |s|
    ensures Strip(p, s) == s
    decreases |s|
  {
    if |s| > 0 {
      assert MatchAt(p, s).None?;
      StripSameLength(p, s[1..]);
      assert [s[0]] + s[1..] == s;
    }
  }

  /** Text with no match of `p` passes unchanged. */
  lemma {:induction false} StripNothing(p: ScriptPattern, s: string)
    requires forall at :: 0 <= at < |s| ==> MatchAt(p, s[at..]).None?
    ensures Strip(p, s) == s
    decreases |s|
  {
    if |s| > 0 {
      assert s[..][0..] == s;
      assert MatchAt(p, s[0..]).None?;
      forall at | 0 <= at < |s[1..]| ensures MatchAt(p, s[1..][at..]).None? {
        assert s[1..][at..] == s[at + 1..];
      }
      StripNothing(p, s[1..]);
      assert [s[0]] + s[1..] == s;
    }
  }

  /** `extractHtmlBody(html)` as written: one pass of each replacement. */
  function ExtractHtmlBody(html: string): (r: string)
    ensures |r| <= |Body(html)|
  {
    Strip(SelfClosing, Strip(Block, Body(html)))
  }

  /** No script block and no self-closing script tag starts anywhere in `s`. */
  predicate ScriptFree(s: string)
  {
    forall at :: 0 <= at < |s| ==> MatchAt(Block, s[at..]).None? && MatchAt(SelfClosing, s[at..]).None?
  }

  /** A body without scripts comes out as it is. */
  lemma ScriptFreeBodyKept(html: string)
    requires ScriptFree(Body(html))
    ensures ExtractHtmlBody(html) == Body(html)
  {
    StripNothing(Block, Body(html));
    StripNothing(SelfClosing, Body(html));
  }

  /** A removal can join the two halves of a split tag into a new block that
      the single pass does not revisit: the result still holds a script. */
  lemma OnePassLeavesScript()
    ensures ExtractHtmlBody("<scr<script></script>ipt></script>") == "<script></script>"
    ensures MatchAt(Block, ExtractHtmlBody("<scr<script></script>ipt></script>")) == Some(17)
  {
    TrickyBody();
    TrickyParts();
    BlockPassJoins("");
    EmptyTagParts();
    SelfClosingPassKeeps("");
    TagMatches(Block, "");
  }

  lemma TrickyBody()
    ensures Body("<scr<script></script>ipt></script>") == "<scr<script></script>ipt></script>"
  {
    NoBodyTag("<scr<script></script>ipt></script>");
  }

  lemma TrickyParts()
    ensures "<scr<script></script>ipt></script>"
      == "<" + ("scr" + ("<script></script>" + ("ipt>" + ("</script>" + ""))))
  {
  }

  lemma EmptyTagParts()
    ensures "<" + ("scr" + ("ipt>" + ("</script>" + ""))) == "<script></script>"
    ensures "<script></script>" + "" == "<script></script>"
  {
  }

  /** The block pass keeps the text around an inner block and drops the block. */
  lemma BlockPassJoins(y: string)
    ensures Strip(Block, "<" + ("scr" + ("<script></script>" + ("ipt>" + ("</script>" + y)))))
      == "<" + ("scr" + ("ipt>" + ("</script>" + Strip(Block, y))))
  {
    var r := "ipt>" + ("</script>" + y);
    var rest1 := "scr" + ("<script></script>" + r);
    var whole := "<" + rest1;
    Cons('<', rest1);
    assert whole[4] == '<' by {
      assert whole[4] == rest1[3];
      assert rest1[3] == ("<script></script>" + r)[0];
    }
    NotStartingAt(whole, "<script", 4);
    StripOne(Block, whole);
    NoLtNoMatch(Block, "scr", "<script></script>" + r);
    StripSkip(Block, "scr", "<script></script>" + r);
    TagMatches(Block, r);
    NoLtNoMatch(Block, "ipt>", "</script>" + y);
    StripSkip(Block, "ipt>", "</script>" + y);
    ClosingTagKept(Block, y);
  }

  /** The self-closing pass keeps a script block. */
  lemma SelfClosingPassKeeps(y: string)
    ensures Strip(SelfClosing, "<script></script>" + y) == "<script></script>" + Strip(SelfClosing, y)
  {
    var rest := "script>" + ("</script>" + y);
    TagParts();
    Assoc("script>", "</script>", y);
    Assoc("<", "script>" + "</script>", y);
    Cons('<', rest);
    TagMatches(SelfClosing, y);
    StripOne(SelfClosing, "<" + rest);
    NoLtNoMatch(SelfClosing, "script>", "</script>" + y);
    StripSkip(SelfClosing, "script>", "</script>" + y);
    ClosingTagKept(SelfClosing, y);
    var z := Strip(SelfClosing, y);
    Assoc("script>", "</script>", z);
    Assoc("<", "script>" + "</script>", z);
  }

  lemma TagParts()
    ensures "<script></script>" == "<" + ("script>" + "</script>")
  {
  }

  lemma NotStartingAt(t: string, pat: string, k: nat)
    requires k < |pat| && (k < |t| ==> LowerChar(t[k]) != pat[k])
    ensures !StartsCI(t, pat)
  {
    if |pat| <= |t| {
      assert Lower(t[..|pat|])[k] == LowerChar(t[k]);
    }
  }

  /** No `<body` without a `b`. */
  lemma NoBodyTag(s: string)
    requires 'b' !in s && 'B' !in s
    ensures Body(s) == s
  {
    forall m | 0 <= m <= |s| ensures !StartsCI(s[m..], "<body") {
      if m + 1 < |s| {
        assert s[m..][1] == s[m + 1] && s[m + 1] in s;
      }
      NoBodyAt(s[m..]);
    }
    FindNone(s, "<body", 0);
  }

  lemma NoBodyAt(t: string)
    requires 1 < |t| ==> t[1] != 'b' && t[1] != 'B'
    ensures !StartsCI(t, "<body")
  {
    assert "<body"[1] == 'b';
    NotStartingAt(t, "<body", 1);
  }

  /** A search where the pattern starts nowhere finds nothing. */
  lemma FindNone(s: string, pat: string, from: nat)
    requires forall m :: from <= m <= |s| ==> !StartsCI(s[m..], pat)
    ensures FindFrom(s, pat, from).None?
  {
  }

  /** Text with no `<` holds no script start. */
  lemma NoLtNoMatch(p: ScriptPattern, x: string, y: string)
    requires '<' !in x
    ensures forall at :: 0 <= at < |x| ==> MatchAt(p, (x + y)[at..]).None?
  {
    forall at | 0 <= at < |x| ensures MatchAt(p, (x + y)[at..]).None? {
      assert (x + y)[at..][0] == x[at];
      NotStartingAt((x + y)[at..], "<script", 0);
    }
  }

  /** The scan copies a stretch in which no match starts. */
  lemma StripSkip(p: ScriptPattern, x: string, y: string)
    requires forall at :: 0 <= at < |x| ==> MatchAt(p, (x + y)[at..]).None?
    ensures Strip(p, x + y) == x + Strip(p, y)
  {
    var t := x + y;
    forall at | 0 <= at < |x| ensures Quiet(p, t, at) {
    }
    StripRun(p, t, 0, |x|);
    assert t[0..] == t && t[0..|x|] == x && t[|x|..] == y;
  }

  /** No match of `p` starts at index `at` of `t`. */
  predicate Quiet(p: ScriptPattern, t: string, at: nat)
    requires at <= |t|
  {
    MatchAt(p, t[at..]).None?
  }

  /** The scan over `t` from `i` copies `t[i..n]` when no match starts there. */
  lemma {:induction false} StripRun(p: ScriptPattern, t: string, i: nat, n: nat)
    requires i <= n <= |t|
    requires forall at :: i <= at < n ==> Quiet(p, t, at)
    ensures Strip(p, t[i..]) == t[i..n] + Strip(p, t[n..])
    decreases n - i
  {
    if i == n {
      assert t[i..n] == [];
    } else {
      assert Quiet(p, t, i);
      StripOne(p, t[i..]);
      assert t[i..][1..] == t[i + 1..];
      StripRun(p, t, i + 1, n);
      Assoc([t[i]], t[i + 1..n], Strip(p, t[n..]));
      assert [t[i]] + t[i + 1..n] == t[i..n];
    }
  }

  /** An empty script block is one block match and no self-closing tag. */
  lemma TagMatches(p: ScriptPattern, y: string)
    ensures p == Block ==> MatchAt(p, "<script></script>" + y) == Some(17)
    ensures p == Block ==> Strip(p, "<script></script>" + y) == Strip(p, y)
    ensures p == SelfClosing ==> MatchAt(p, "<script></script>" + y).None?
  {
    TagLiterals();
    TagMatchesAt(p, "<script></script>", y);
  }

  lemma TagLiterals()
    ensures |"<script></script>"| == 17
    ensures "<script></script>"[..7] == "<script" && "<script></script>"[7] == '>'
    ensures "<script></script>"[8..] == "</script>"
    ensures Lower("<script") == "<script" && Lower("</script>") == "</script>"
  {
  }

  lemma TagMatchesAt(p: ScriptPattern, tag: string, y: string)
    requires |tag| == 17 && tag[..7] == "<script" && tag[7] == '>' && tag[8..] == "</script>"
    requires Lower("<script") == "<script" && Lower("</script>") == "</script>"
    ensures p == Block ==> MatchAt(p, tag + y) == Some(17)
    ensures p == Block ==> Strip(p, tag + y) == Strip(p, y)
    ensures p == SelfClosing ==> MatchAt(p, tag + y).None?
  {
    var t := tag + y;
    assert t[..7] == tag[..7];
    assert t[7] == '>';
    StartsGt(t[7..]);
    assert FindFrom(t, ">", 7) == Some(7);
    assert t[8..][..9] == tag[8..];
    assert FindFrom(t, "</script>", 8) == Some(8);
    assert t[17..] == y;
  }

  lemma Assoc(a: string, b: string, c: string)
    ensures a + (b + c) == (a + b) + c
  {
  }

  lemma Cons(a: char, x: string)
    ensures ([a] + x)[0] == a && ([a] + x)[1..] == x
  {
  }

  /** A closing tag is copied by either pass. */
  lemma ClosingTagKept(p: ScriptPattern, y: string)
    ensures Strip(p, "</script>" + y) == "</script>" + Strip(p, y)
  {
    var rest := "/script>" + y;
    var c := "<" + rest;
    ClosingParts();
    Assoc("<", "/script>", y);
    Cons('<', rest);
    NotStartingAt(c, "<script", 1);
    StripOne(p, c);
    NoLtNoMatch(p, "/script>", y);
    StripSkip(p, "/script>", y);
    Assoc("<", "/script>", Strip(p, y));
  }

  lemma ClosingParts()
    ensures "<" + "/script>" == "</script>"
  {
  }

  /** One step of the scan where no match starts. */
  lemma StripOne(p: ScriptPattern, t: string)
    requires |t| > 0 && MatchAt(p, t).None?
    ensures Strip(p, t) == [t[0]] + Strip(p, t[1..])
  {
  }

  /** The scripts removed until none is left: both passes repeated while they
      still change something. */
  function RemoveScripts(s: string): (r: string)
    ensures ScriptFree(r)
    ensures |r| <= |s|
    decreases |s|
  {
    var t := Strip(SelfClosing, Strip(Block, s));
    if |t| < |s| then RemoveScripts(t)
    else
      assert ScriptFree(s) by {
        forall at | 0 <= at < |s|
          ensures MatchAt(Block, s[at..]).None? && MatchAt(SelfClosing, s[at..]).None?
        {
          NoShrinkNoMatch(Block, s, at);
          StripSameLength(Block, s);
          NoShrinkNoMatch(SelfClosing, s, at);
        }
      }
      s
  }

  /** `extractHtmlBody` with the scripts removed until none is left. */
  function ExtractHtmlBodyFixed(html: string): (r: string)
    ensures ScriptFree(r)
    ensures ScriptFree(Body(html)) ==> r == Body(html)
  {
    var b := Body(html);
    if ScriptFree(b) then
      StripNothing(Block, b);
      StripNothing(SelfClosing, b);
      b
    else RemoveScripts(b)
  }

  // ---------------------------------------------------------------------
  // What the script patterns match, stated without the scan

  /** `<script\b[^>]*>` at the start of `t`, closing at its first `>`, which
      is at index `q`. */
  predicate OpenTag(t: string, q: nat)
  {
    StartsCI(t, "<script") && !(|t| > 7 && IsWordChar(t[7]))
    && 7 <= q < |t| && t[q] == '>' && (forall m :: 7 <= m < q ==> t[m] != '>')
  }

  /** The match of `p` anchored at the start of `t` is `t[..n]`, with the
      opening tag closing at `q`: a block runs to the first `</script>` after
      the tag (the lazy `[\s\S]*?`); a self-closing tag ends in `/>`. */
  predicate ScriptMatch(p: ScriptPattern, t: string, q: nat, n: nat)
  {
    OpenTag(t, q)
    && match p
       case Block =>
         q + 10 <= n <= |t| && StartsCI(t[n - 9..], "</script>")
         && (forall m :: q + 1 <= m < n - 9 ==> !StartsCI(t[m..], "</script>"))
       case SelfClosing => 8 <= q && t[q - 1] == '/' && n == q + 1
  }

  /** A search finds the first place the pattern starts. */
  lemma {:induction false} FindFromIs(s: string, pat: string, from: nat, k: nat)
    requires from <= k && k + |pat| <= |s| && StartsCI(s[k..], pat)
    requires forall m :: from <= m < k ==> !StartsCI(s[m..], pat)
    ensures FindFrom(s, pat, from) == Some(k)
    decreases k - from
  {
    if from < k {
      FindFromIs(s, pat, from + 1, k);
    }
  }

  /** `MatchAt` finds exactly the anchored match the pattern describes. */
  lemma MatchAtSpec(p: ScriptPattern, t: string, n: nat)
    ensures MatchAt(p, t) == Some(n) <==> exists q :: ScriptMatch(p, t, q, n)
  {
    if MatchAt(p, t) == Some(n) {
      MatchAtSound(p, t);
    }
    if exists q :: ScriptMatch(p, t, q, n) {
      var q :| ScriptMatch(p, t, q, n);
      MatchAtComplete(p, t, q, n);
    }
  }

  lemma MatchAtSound(p: ScriptPattern, t: string)
    requires MatchAt(p, t).Some?
    ensures exists q :: ScriptMatch(p, t, q, MatchAt(p, t).value)
  {
    var q := FindFrom(t, ">", 7).value;
    FirstGt(t, 7, q);
    match p
    case Block =>
      var e := FindFrom(t, "</script>", q + 1).value;
      assert t[e + 9 - 9..] == t[e..];
      assert ScriptMatch(p, t, q, e + 9);
    case SelfClosing =>
      assert ScriptMatch(p, t, q, q + 1);
  }

  lemma MatchAtComplete(p: ScriptPattern, t: string, q: nat, n: nat)
    requires ScriptMatch(p, t, q, n)
    ensures MatchAt(p, t) == Some(n)
  {
    TagEndFound(t, q);
    if p == Block {
      FindFromIs(t, "</script>", q + 1, n - 9);
    }
    MatchAtParts(p, t, q, n);
  }

  /** `MatchAt` from what its two searches find. */
  lemma MatchAtParts(p: ScriptPattern, t: string, q: nat, n: nat)
    requires StartsCI(t, "<script") && !(|t| > 7 && IsWordChar(t[7]))
    requires FindFrom(t, ">", 7) == Some(q)
    requires p == Block ==> q + 10 <= n && FindFrom(t, "</script>", q + 1) == Some(n - 9)
    requires p == SelfClosing ==> 8 <= q < |t| && t[q - 1] == '/' && n == q + 1
    ensures MatchAt(p, t) == Some(n)
  {
    if p == Block {
      BlockParts(t, q, n);
    } else {
      SelfClosingParts(t, q, n);
    }
  }

  lemma BlockParts(t: string, q: nat, n: nat)
    requires StartsCI(t, "<script") && !(|t| > 7 && IsWordChar(t[7]))
    requires FindFrom(t, ">", 7) == Some(q)
    requires q + 10 <= n && FindFrom(t, "</script>", q + 1) == Some(n - 9)
    ensures MatchAt(Block, t) == Some(n)
  {
  }

  lemma SelfClosingParts(t: string, q: nat, n: nat)
    requires StartsCI(t, "<script") && !(|t| > 7 && IsWordChar(t[7]))
    requires FindFrom(t, ">", 7) == Some(q)
    requires 8 <= q < |t| && t[q - 1] == '/' && n == q + 1
    ensures MatchAt(SelfClosing, t) == Some(n)
  {
  }

  /** The search for the end of the opening tag finds its first `>`. */
  lemma TagEndFound(t: string, q: nat)
    requires 7 <= q < |t| && t[q] == '>' && forall m :: 7 <= m < q ==> t[m] != '>'
    ensures FindFrom(t, ">", 7) == Some(q)
  {
    forall m | 7 <= m < q ensures !StartsCI(t[m..], ">") {
      StartsGt(t[m..]);
    }
    StartsGt(t[q..]);
    FindFromIs(t, ">", 7, q);
  }

  // ---------------------------------------------------------------------
  // What one replacement pass removes

  /** The strings of `xs` put together. */
  function Concat(xs: seq<string>): string
    decreases |xs|
  {
    if |xs| == 0 then "" else xs[0] + Concat(xs[1..])
  }

  /** `s` cut the way the scan of `p` cuts it: `s == xs[0] + ms[0] + xs[1] +
      … + xs[k]`, where no match starts inside a kept stretch `xs[i]` and each
      removed piece `ms[i]` is the match that starts where the stretch before
      it ends. */
  predicate Scan(p: ScriptPattern, s: string, xs: seq<string>, ms: seq<string>)
    decreases |ms|
  {
    |xs| == |ms| + 1 && s == Interleave(xs, ms) && |xs[0]| <= |s|
    && (forall at {:trigger MatchAt(p, s[at..])} :: 0 <= at < |xs[0]| ==> MatchAt(p, s[at..]).None?)
    && (|ms| > 0 ==>
          MatchAt(p, s[|xs[0]|..]) == Some(|ms[0]|)
          && Scan(p, Interleave(xs[1..], ms[1..]), xs[1..], ms[1..]))
  }

  /** The kept stretches and the removed matches of the scan of `p` over `s`,
      in order. */
  function Pieces(p: ScriptPattern, s: string): (r: (seq<string>, seq<string>))
    ensures |r.0| == |r.1| + 1
    decreases |s|
  {
    if |s| == 0 then ([""], [])
    else
      match MatchAt(p, s)
      case Some(n) =>
        var rest := Pieces(p, s[n..]);
        ([""] + rest.0, [s[..n]] + rest.1)
      case None =>
        var rest := Pieces(p, s[1..]);
        ([[s[0]] + rest.0[0]] + rest.0[1..], rest.1)
  }

  /** `s.replace(p, '')` removes exactly the matches the left-to-right scan
      meets: the input is cut into kept stretches and matches, and the result
      is the kept stretches put together. */
  lemma StripSpec(p: ScriptPattern, s: string)
    ensures Scan(p, s, Pieces(p, s).0, Pieces(p, s).1)
    ensures Strip(p, s) == Concat(Pieces(p, s).0)
  {
    PiecesScan(p, s);
    StripScan(p, s, Pieces(p, s).0, Pieces(p, s).1);
  }

  /** Along such a cut the scan keeps exactly the stretches. */
  lemma {:induction false} StripScan(p: ScriptPattern, s: string, xs: seq<string>, ms: seq<string>)
    requires Scan(p, s, xs, ms)
    ensures Strip(p, s) == Concat(xs)
    decreases |ms|
  {
    var x := xs[0];
    if |ms| == 0 {
      assert s[..|x|] == x && s[|x|..] == "";
      ScanCopy(p, s, x);
    } else {
      var rest := Interleave(xs[1..], ms[1..]);
      ScanStep(p, s, x, ms[0], rest);
      StripScan(p, rest, xs[1..], ms[1..]);
    }
  }

  /** The scan copies the first stretch and drops the match after it. */
  lemma ScanStep(p: ScriptPattern, s: string, x: string, m: string, rest: string)
    requires s == x + m + rest
    requires forall at :: 0 <= at < |x| ==> MatchAt(p, s[at..]).None?
    requires MatchAt(p, s[|x|..]) == Some(|m|)
    ensures Strip(p, s) == x + Strip(p, rest)
  {
    assert s[..|x|] == x && s[|x|..] == m + rest;
    ScanCopy(p, s, x);
    StripMatch(p, m, rest);
  }

  /** The scan copies a leading stretch in which no match starts. */
  lemma ScanCopy(p: ScriptPattern, s: string, x: string)
    requires |x| <= |s| && s[..|x|] == x
    requires forall at :: 0 <= at < |x| ==> MatchAt(p, s[at..]).None?
    ensures Strip(p, s) == x + Strip(p, s[|x|..])
  {
    forall at | 0 <= at < |x| ensures Quiet(p, s, at) {
    }
    StripRun(p, s, 0, |x|);
    assert s[0..] == s && s[0..|x|] == x;
  }

  /** The scan drops a match it meets. */
  lemma StripMatch(p: ScriptPattern, m: string, rest: string)
    requires MatchAt(p, m + rest) == Some(|m|)
    ensures Strip(p, m + rest) == Strip(p, rest)
  {
    assert (m + rest)[|m|..] == rest;
  }

  /** The pieces cut the input the way the scan does. */
  lemma {:induction false} PiecesScan(p: ScriptPattern, s: string)
    ensures Scan(p, s, Pieces(p, s).0, Pieces(p, s).1)
    decreases |s|, 1
  {
    if |s| == 0 {
    } else if MatchAt(p, s).Some? {
      PiecesAtMatch(p, s);
    } else {
      PiecesAtChar(p, s);
    }
  }

  lemma {:induction false} PiecesAtMatch(p: ScriptPattern, s: string)
    requires MatchAt(p, s).Some?
    ensures Scan(p, s, Pieces(p, s).0, Pieces(p, s).1)
    decreases |s|, 0
  {
    var n := MatchAt(p, s).value;
    PiecesScan(p, s[n..]);
    var xs, ms := Pieces(p, s[n..]).0, Pieces(p, s[n..]).1;
    var xs', ms' := Pieces(p, s).0, Pieces(p, s).1;
    assert xs' == [""] + xs && ms' == [s[..n]] + ms;
    assert xs'[1..] == xs && ms'[1..] == ms;
    InterleaveLead(s[..n], xs, ms);
    TakeDrop(s, n);
    assert s[0..] == s;
  }

  lemma {:induction false} PiecesAtChar(p: ScriptPattern, s: string)
    requires |s| > 0 && MatchAt(p, s).None?
    ensures Scan(p, s, Pieces(p, s).0, Pieces(p, s).1)
    decreases |s|, 0
  {
    PiecesScan(p, s[1..]);
    var xs, ms := Pieces(p, s[1..]).0, Pieces(p, s[1..]).1;
    var xs' := Pieces(p, s).0;
    assert xs' == [[s[0]] + xs[0]] + xs[1..];
    assert Pieces(p, s).1 == ms;
    InterleaveCons(s[0], xs, ms);
    assert [s[0]] + s[1..] == s;
    forall at | 0 <= at < |xs'[0]| ensures MatchAt(p, s[at..]).None? {
      if at > 0 {
        assert s[at..] == s[1..][at - 1..];
      } else {
        assert s[0..] == s;
      }
    }
    if |ms| > 0 {
      assert s[|xs'[0]|..] == s[1..][|xs[0]|..];
      assert xs'[1..] == xs[1..];
    }
  }

  /** `extractHtmlBody` as written: the block pass cuts the body into kept
      stretches and blocks, the self-closing pass cuts what is left, and the
      result is what both keep. */
  lemma ExtractHtmlBodySpec(html: string)
    ensures var b := Body(html); var xs := Pieces(Block, b).0;
      Scan(Block, b, xs, Pieces(Block, b).1)
      && Scan(SelfClosing, Concat(xs), Pieces(SelfClosing, Concat(xs)).0, Pieces(SelfClosing, Concat(xs)).1)
      && ExtractHtmlBody(html) == Concat(Pieces(SelfClosing, Concat(xs)).0)
  {
    var b := Body(html);
    StripSpec(Block, b);
    StripSpec(SelfClosing, Concat(Pieces(Block, b).0));
  }

  // ---------------------------------------------------------------------
  // Repeated passes remove matches and nothing else

  /** One removal: the match of `p` that starts at index `at`. */
  datatype Cut = Cut(p: ScriptPattern, at: nat)

  /** The length of the match of a pattern anchored at the start of a text,
      if any; `MatchAt` is the one the passes use. */
  type Matcher = (ScriptPattern, string) -> Option<nat>

  /** The text after cutting out the match `m` finds for `c.p` at `c.at`;
      None when there is none. */
  function CutOne(m: Matcher, s: string, c: Cut): (r: Option<string>)
    ensures r.Some? ==> |r.value| <= |s|
  {
    if c.at > |s| then None
    else
      match m(c.p, s[c.at..])
      case None => None
      case Some(n) => if c.at + n <= |s| then Some(s[..c.at] + s[c.at + n..]) else None
  }

  /** The text after making the cuts one after the other, each at an index
      of the text as it then stands; None when a cut finds no match there. */
  function CutAll(m: Matcher, s: string, cuts: seq<Cut>): Option<string>
    decreases |cuts|
  {
    if |cuts| == 0 then Some(s)
    else
      match CutOne(m, s, cuts[0])
      case None => None
      case Some(t) => CutAll(m, t, cuts[1..])
  }

  /** Every cut is of a match of `p`. */
  predicate AllOf(cuts: seq<Cut>, p: ScriptPattern)
  {
    forall k :: 0 <= k < |cuts| ==> cuts[k].p == p
  }

  /** The same cuts, `k` places further on. */
  function Shift(cuts: seq<Cut>, k: nat): seq<Cut>
    decreases |cuts|
  {
    if |cuts| == 0 then [] else [Cut(cuts[0].p, cuts[0].at + k)] + Shift(cuts[1..], k)
  }

  /** Text in front of the cuts is kept. */
  lemma {:induction false} CutAllShift(m: Matcher, pre: string, t: string, cuts: seq<Cut>)
    requires CutAll(m, t, cuts).Some?
    ensures CutAll(m, pre + t, Shift(cuts, |pre|)) == Some(pre + CutAll(m, t, cuts).value)
    decreases |cuts|
  {
    if |cuts| > 0 {
      var sh := Shift(cuts, |pre|);
      assert sh[0] == Cut(cuts[0].p, cuts[0].at + |pre|) && sh[1..] == Shift(cuts[1..], |pre|);
      var t' := CutOne(m, t, cuts[0]).value;
      CutOneShift(m, pre, t, cuts[0]);
      CutAllShift(m, pre, t', cuts[1..]);
    } else {
      assert Shift(cuts, |pre|) == [];
    }
  }

  lemma CutOneShift(m: Matcher, pre: string, t: string, c: Cut)
    requires CutOne(m, t, c).Some?
    ensures CutOne(m, pre + t, Cut(c.p, c.at + |pre|)) == Some(pre + CutOne(m, t, c).value)
  {
    var n := m(c.p, t[c.at..]).value;
    var s := pre + t;
    assert s[c.at + |pre|..] == t[c.at..];
    assert s[..c.at + |pre|] + s[c.at + |pre| + n..] == pre + (t[..c.at] + t[c.at + n..]);
  }

  /** Cuts made in two rounds are cuts made in one. */
  lemma {:induction false} CutAllAppend(m: Matcher, s: string, c1: seq<Cut>, c2: seq<Cut>)
    requires CutAll(m, s, c1).Some?
    ensures CutAll(m, s, c1 + c2) == CutAll(m, CutAll(m, s, c1).value, c2)
    decreases |c1|
  {
    if |c1| == 0 {
      assert c1 + c2 == c2;
    } else {
      assert (c1 + c2)[0] == c1[0] && (c1 + c2)[1..] == c1[1..] + c2;
      CutAllAppend(m, CutOne(m, s, c1[0]).value, c1[1..], c2);
    }
  }

  /** The cuts one pass of `s.replace(p, '')` makes, left to right. */
  function StripCutList(p: ScriptPattern, s: string): seq<Cut>
    decreases |s|
  {
    if |s| == 0 then []
    else
      match MatchAt(p, s)
      case Some(n) => [Cut(p, 0)] + StripCutList(p, s[n..])
      case None => Shift(StripCutList(p, s[1..]), 1)
  }

  /** One pass of `s.replace(p, '')` is a sequence of cuts of matches of `p`. */
  lemma {:induction false} StripCuts(p: ScriptPattern, s: string)
    ensures AllOf(StripCutList(p, s), p)
    ensures CutAll(MatchAt, s, StripCutList(p, s)) == Some(Strip(p, s))
    decreases |s|
  {
    if |s| > 0 {
      match MatchAt(p, s)
      case Some(n) =>
        StripCuts(p, s[n..]);
        CutAtStart(p, s, n, StripCutList(p, s[n..]));
      case None =>
        StripCuts(p, s[1..]);
        CutAllShift(MatchAt, [s[0]], s[1..], StripCutList(p, s[1..]));
        ShiftKeepsPattern(StripCutList(p, s[1..]), 1, p);
        assert [s[0]] + s[1..] == s;
    }
  }

  lemma CutAtStart(p: ScriptPattern, s: string, n: nat, cs: seq<Cut>)
    requires MatchAt(p, s) == Some(n) && AllOf(cs, p)
    ensures AllOf([Cut(p, 0)] + cs, p)
    ensures CutAll(MatchAt, s, [Cut(p, 0)] + cs) == CutAll(MatchAt, s[n..], cs)
  {
    var cuts := [Cut(p, 0)] + cs;
    assert cuts[0] == Cut(p, 0) && cuts[1..] == cs;
    assert s[0..] == s && s[..0] + s[n..] == s[n..];
    assert CutOne(MatchAt, s, Cut(p, 0)) == Some(s[n..]);
  }

  lemma {:induction false} ShiftKeepsPattern(cuts: seq<Cut>, k: nat, p: ScriptPattern)
    requires AllOf(cuts, p)
    ensures AllOf(Shift(cuts, k), p)
    decreases |cuts|
  {
    if |cuts| > 0 {
      ShiftKeepsPattern(cuts[1..], k, p);
    }
  }

  /** The cuts the repeated passes make: those of each pass, in order. */
  function RemoveCutList(s: string): seq<Cut>
    decreases |s|
  {
    var t1 := Strip(Block, s);
    var t := Strip(SelfClosing, t1);
    if |t| < |s| then StripCutList(Block, s) + StripCutList(SelfClosing, t1) + RemoveCutList(t) else []
  }

  /** Removing scripts until none is left only cuts out script matches. */
  lemma {:induction false} RemoveScriptsCuts(s: string)
    ensures CutAll(MatchAt, s, RemoveCutList(s)) == Some(RemoveScripts(s))
    decreases |s|
  {
    var t1 := Strip(Block, s);
    var t := Strip(SelfClosing, t1);
    if |t| < |s| {
      var c1, c2 := StripCutList(Block, s), StripCutList(SelfClosing, t1);
      StripCuts(Block, s);
      StripCuts(SelfClosing, t1);
      RemoveScriptsCuts(t);
      CutAllAppend(MatchAt, s, c1, c2);
      CutAllAppend(MatchAt, s, c1 + c2, RemoveCutList(t));
    }
  }

  /** `extractHtmlBody` with the scripts removed until none is left keeps the
      body except for cut-out script matches, and leaves no script. */
  lemma ExtractHtmlBodyFixedCuts(html: string)
    ensures exists cuts :: CutAll(MatchAt, Body(html), cuts) == Some(ExtractHtmlBodyFixed(html))
    ensures ScriptFree(ExtractHtmlBodyFixed(html))
  {
    var b := Body(html);
    if ScriptFree(b) {
      assert CutAll(MatchAt, b, []) == Some(ExtractHtmlBodyFixed(html));
    } else {
      RemoveScriptsCuts(b);
      assert CutAll(MatchAt, b, RemoveCutList(b)) == Some(ExtractHtmlBodyFixed(html));
    }
  }

  /** Text without `<` holds no script and is kept by either pass. */
  lemma NoLtKept(p: ScriptPattern, y: string)
    requires '<' !in y
    ensures Strip(p, y) == y
  {
    forall at | 0 <= at < |y| ensures MatchAt(p, y[at..]).None? {
      assert y[at..][0] == y[at];
      NotStartingAt(y[at..], "<script", 0);
    }
    StripNothing(p, y);
  }

  /** One script block between plain text is removed and the text around it
      is kept, by one pass and by the repeated passes. */
  lemma StripBlockBetween(x: string, blk: string, y: string)
    requires '<' !in x && '<' !in y && MatchAt(Block, blk + y) == Some(|blk|)
    ensures Strip(Block, x + blk + y) == x + y
    ensures RemoveScripts(x + blk + y) == x + y
    ensures Body(x + blk + y) == x + blk + y ==> ExtractHtmlBody(x + blk + y) == x + y
  {
    Assoc(x, blk, y);
    NoLtNoMatch(Block, x, blk + y);
    StripSkip(Block, x, blk + y);
    StripMatch(Block, blk, y);
    NoLtKept(Block, y);
    assert '<' !in x + y;
    NoLtKept(Block, x + y);
    NoLtKept(SelfClosing, x + y);
    assert RemoveScripts(x + y) == x + y;
  }

  // ---------------------------------------------------------------------
  // The attribute escaping in openViaLocalPrefill

  /** `s.replace(/c/g, rep)`. */
  function ReplaceChar(s: string, c: char, rep: string): (r: string)
    decreases |s|
  {
    if |s| == 0 then "" else (if s[0] == c then rep else [s[0]]) + ReplaceChar(s[1..], c, rep)
  }

  lemma {:induction false} ReplaceCharAppend(a: string, b: string, c: char, rep: string)
    ensures ReplaceChar(a + b, c, rep) == ReplaceChar(a, c, rep) + ReplaceChar(b, c, rep)
    decreases |a|
  {
    if |a| == 0 {
      assert a + b == b;
    } else {
      assert (a + b)[1..] == a[1..] + b;
      ReplaceCharAppend(a[1..], b, c, rep);
    }
  }

  lemma ReplaceCharAbsent(s: string, c: char, rep: string)
    requires c !in s
    ensures ReplaceChar(s, c, rep) == s
    decreases |s|
  {
    if |s| > 0 {
      ReplaceCharAbsent(s[1..], c, rep);
      assert [s[0]] + s[1..] == s;
    }
  }

  /** The four replacements in their order: `&` first, then `<`, `>`, `"`. */
  function EscapeAttr(s: string): string
  {
    ReplaceChar(ReplaceChar(ReplaceChar(ReplaceChar(s, '&', "&amp;"), '<', "&lt;"), '>', "&gt;"), '"', "&quot;")
  }

  /** The entity one character becomes. */
  function EscapeChar(c: char): (r: string)
    ensures '<' !in r && '>' !in r && '"' !in r
  {
    if c == '&' then "&amp;" else if c == '<' then "&lt;" else if c == '>' then "&gt;"
    else if c == '"' then "&quot;" else [c]
  }

  /** Each character escaped on its own, once. */
  function EscapeEach(s: string): (r: string)
    ensures '<' !in r && '>' !in r && '"' !in r
    decreases |s|
  {
    if |s| == 0 then "" else EscapeChar(s[0]) + EscapeEach(s[1..])
  }

  /** Because `&` goes first, the chain escapes every character exactly once:
      no entity it introduces is escaped again. */
  lemma {:induction false} EscapeAttrIsEscapeEach(s: string)
    ensures EscapeAttr(s) == EscapeEach(s)
    decreases |s|
  {
    if |s| > 0 {
      var c := s[0];
      assert s == [c] + s[1..];
      ReplaceCharAppend([c], s[1..], '&', "&amp;");
      var a1 := ReplaceChar([c], '&', "&amp;");
      var b1 := ReplaceChar(s[1..], '&', "&amp;");
      ReplaceCharAppend(a1, b1, '<', "&lt;");
      var a2 := ReplaceChar(a1, '<', "&lt;");
      var b2 := ReplaceChar(b1, '<', "&lt;");
      ReplaceCharAppend(a2, b2, '>', "&gt;");
      var a3 := ReplaceChar(a2, '>', "&gt;");
      var b3 := ReplaceChar(b2, '>', "&gt;");
      ReplaceCharAppend(a3, b3, '"', "&quot;");
      var a4 := ReplaceChar(a3, '"', "&quot;");
      assert [c][1..] == [];
      SingleCharChain(c);
      EscapeAttrIsEscapeEach(s[1..]);
    }
  }

  lemma SingleCharChain(c: char)
    ensures EscapeAttr([c]) == EscapeChar(c)
  {
    if c == '&' {
      EscapeAmp();
    } else if c == '<' {
      EscapeLt();
    } else if c == '>' {
      EscapeGt();
    } else if c == '"' {
      EscapeQuot();
    } else {
      EscapePlain(c);
    }
  }

  lemma EscapeAmp()
    ensures EscapeAttr("&") == "&amp;"
  {
    var amp := "&amp;";
    ReplaceCharOne('&', '&', amp);
    AmpPlain();
    ReplaceCharAbsent(amp, '<', "&lt;");
    ReplaceCharAbsent(amp, '>', "&gt;");
    ReplaceCharAbsent(amp, '"', "&quot;");
    assert EscapeAttr("&") == ReplaceChar(ReplaceChar(ReplaceChar(amp, '<', "&lt;"), '>', "&gt;"), '"', "&quot;");
  }

  lemma AmpPlain()
    ensures '<' !in "&amp;" && '>' !in "&amp;" && '"' !in "&amp;"
  {
    assert "&amp;" == ['&', 'a', 'm', 'p', ';'];
  }

  lemma EscapeLt()
    ensures EscapeAttr("<") == "&lt;"
  {
    var lt := "&lt;";
    ReplaceCharOne('<', '&', "&amp;");
    ReplaceCharOne('<', '<', lt);
    LtPlain();
    ReplaceCharAbsent(lt, '>', "&gt;");
    ReplaceCharAbsent(lt, '"', "&quot;");
    assert EscapeAttr("<") == ReplaceChar(ReplaceChar(lt, '>', "&gt;"), '"', "&quot;");
  }

  lemma LtPlain()
    ensures '>' !in "&lt;" && '"' !in "&lt;"
  {
    assert "&lt;" == ['&', 'l', 't', ';'];
  }

  lemma EscapeGt()
    ensures EscapeAttr(">") == "&gt;"
  {
    var gt := "&gt;";
    ReplaceCharOne('>', '&', "&amp;");
    ReplaceCharOne('>', '<', "&lt;");
    ReplaceCharOne('>', '>', gt);
    GtPlain();
    ReplaceCharAbsent(gt, '"', "&quot;");
    assert EscapeAttr(">") == ReplaceChar(gt, '"', "&quot;");
  }

  lemma GtPlain()
    ensures '"' !in "&gt;"
  {
    assert "&gt;" == ['&', 'g', 't', ';'];
  }

  lemma EscapeQuot()
    ensures EscapeAttr("\"") == "&quot;"
  {
    ReplaceCharOne('"', '&', "&amp;");
    ReplaceCharOne('"', '<', "&lt;");
    ReplaceCharOne('"', '>', "&gt;");
    ReplaceCharOne('"', '"', "&quot;");
  }

  lemma EscapePlain(c: char)
    requires c != '&' && c != '<' && c != '>' && c != '"'
    ensures EscapeAttr([c]) == [c]
  {
    ReplaceCharOne(c, '&', "&amp;");
    ReplaceCharOne(c, '<', "&lt;");
    ReplaceCharOne(c, '>', "&gt;");
    ReplaceCharOne(c, '"', "&quot;");
  }

  lemma ReplaceCharOne(c: char, x: char, rep: string)
    ensures ReplaceChar([c], x, rep) == if c == x then rep else [c]
  {
    assert [c][1..] == [];
  }

  /** Decoding the four entities, left to right. */
  function Unescape(t: string): string
    decreases |t|
  {
    if |t| == 0 then ""
    else if StartsWith(t, "&amp;") then "&" + Unescape(t[5..])
    else if StartsWith(t, "&lt;") then "<" + Unescape(t[4..])
    else if StartsWith(t, "&gt;") then ">" + Unescape(t[4..])
    else if StartsWith(t, "&quot;") then "\"" + Unescape(t[6..])
    else [t[0]] + Unescape(t[1..])
  }

  /** Escaping loses nothing: decoding the entities gives the payload back. */
  lemma {:induction false} EscapeRoundTrip(s: string)
    ensures Unescape(EscapeAttr(s)) == s
  {
    EscapeAttrIsEscapeEach(s);
    UnescapeEach(s);
  }

  lemma {:induction false} UnescapeEach(s: string)
    ensures Unescape(EscapeEach(s)) == s
    decreases |s|
  {
    if |s| > 0 {
      UnescapeOne(s[0], EscapeEach(s[1..]));
      UnescapeEach(s[1..]);
      assert [s[0]] + s[1..] == s;
    }
  }

  /** Decoding an escaped character and what follows it. */
  lemma UnescapeOne(c: char, rest: string)
    ensures Unescape(EscapeChar(c) + rest) == [c] + Unescape(rest)
  {
    var e := EscapeChar(c);
    var t := e + rest;
    assert t[..|e|] == e && t[|e|..] == rest;
    assert t[0] == e[0];
    if |e| >= 2 {
      assert t[1] == e[1];
    }
    if c == '&' {
      assert StartsWith(t, "&amp;");
    } else if c == '<' {
      assert !StartsWith(t, "&amp;") by { if |t| >= 5 { assert t[..5][1] == t[1]; } }
      assert StartsWith(t, "&lt;");
    } else if c == '>' {
      assert !StartsWith(t, "&amp;") by { if |t| >= 5 { assert t[..5][1] == t[1]; } }
      assert !StartsWith(t, "&lt;") by { assert t[..4][1] == t[1]; }
      assert StartsWith(t, "&gt;");
    } else if c == '"' {
      assert !StartsWith(t, "&amp;") by { assert t[..5][1] == t[1]; }
      assert !StartsWith(t, "&lt;") by { assert t[..4][1] == t[1]; }
      assert !StartsWith(t, "&gt;") by { assert t[..4][1] == t[1]; }
      assert StartsWith(t, "&quot;");
    } else {
      assert t[0] == c;
      assert !StartsWith(t, "&amp;") && !StartsWith(t, "&lt;") && !StartsWith(t, "&gt;") && !StartsWith(t, "&quot;") by {
        if |t| >= 4 { assert t[..4][0] == t[0]; }
      }
    }
  }
}
