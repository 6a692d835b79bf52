/** String helpers with the behaviour of the JavaScript string methods the
    source calls: ASCII lower-casing, `trim`, `split` on one character and on
    runs of white space, `includes`, `startsWith`/`endsWith`. */
module Text {

  /** The characters JavaScript's `trim` and the regex class `\s` treat as
      white space (WhiteSpace and LineTerminator of ECMAScript). */
  predicate IsWs(c: char)
  {
    c == ' ' || c == '\t' || c == '\n' || c == '\r' || c == '\U{000B}' || c == '\U{000C}'
    || c == '\U{00A0}' || c == '\U{FEFF}' || c == '\U{1680}' || ('\U{2000}' <= c <= '\U{200A}')
    || c == '\U{2028}' || c == '\U{2029}' || c == '\U{202F}' || c == '\U{205F}' || c == '\U{3000}'
  }

  /** Lower-casing of one character, restricted to ASCII letters. */
  function LowerChar(c: char): (r: char)
    ensures 'A' <= c <= 'Z' ==> r as int == c as int + 32
    ensures !('A' <= c <= 'Z') ==> r == c
  {
    if 'A' <= c <= 'Z' then (c as int + 32) as char else c
  }

  /** `s.toLowerCase()` for ASCII letters; every other character is kept. */
  function Lower(s: string): (r: string)
    ensures |r| == |s|
    ensures forall i :: 0 <= i < |s| ==> r[i] == LowerChar(s[i])
  {
    seq(|s|, i requires 0 <= i < |s| => LowerChar(s[i]))
  }

  lemma LowerIdempotent(s: string)
    ensures Lower(Lower(s)) == Lower(s)
  {
  }

  /** `s.trimStart()`: the suffix left after dropping leading white space. */
  function TrimStart(s: string): (r: string)
    ensures |r| <= |s| && r == s[|s| - |r|..]
    ensures r == [] || !IsWs(r[0])
    decreases |s|
  {
    if |s| > 0 && IsWs(s[0]) then TrimStart(s[1..]) else s
  }

  /** `s.trimEnd()`: the prefix left after dropping trailing white space. */
  function TrimEnd(s: string): (r: string)
    ensures |r| <= |s| && r == s[..|r|]
    ensures r == [] || !IsWs(r[|r| - 1])
    decreases |s|
  {
    if |s| > 0 && IsWs(s[|s| - 1]) then TrimEnd(s[..|s| - 1]) else s
  }

  /** `trimStart` drops white space only. */
  lemma {:induction false} TrimStartCut(s: string)
    ensures forall i :: 0 <= i < |s| - |TrimStart(s)| ==> IsWs(s[i])
    decreases |s|
  {
    if |s| > 0 && IsWs(s[0]) {
      TrimStartCut(s[1..]);
      assert forall i :: 1 <= i < |s| ==> s[i] == s[1..][i - 1];
    }
  }

  /** `trimEnd` drops white space only. */
  lemma {:induction false} TrimEndCut(s: string)
    ensures forall i :: |TrimEnd(s)| <= i < |s| ==> IsWs(s[i])
    decreases |s|
  {
    if |s| > 0 && IsWs(s[|s| - 1]) {
      TrimEndCut(s[..|s| - 1]);
      assert forall i :: 0 <= i < |s| - 1 ==> s[i] == s[..|s| - 1][i];
    }
  }

  /** Every character of `s` is white space. */
  predicate AllWs(s: string)
  {
    forall j :: 0 <= j < |s| ==> IsWs(s[j])
  }

  /** No character of `s` is white space. */
  predicate NoWs(s: string)
  {
    forall j :: 0 <= j < |s| ==> !IsWs(s[j])
  }

  /** `s.trim()`: white space dropped on either side, so the result neither
      starts nor ends with white space. */
  function Trim(s: string): (r: string)
    ensures r == [] || (!IsWs(r[0]) && !IsWs(r[|r| - 1]))
  {
    TrimEdges(s);
    TrimEnd(TrimStart(s))
  }

  lemma TrimEdges(s: string)
    ensures var r := TrimEnd(TrimStart(s)); r == [] || (!IsWs(r[0]) && !IsWs(r[|r| - 1]))
  {
    var t := TrimStart(s);
    var r := TrimEnd(t);
    if |r| > 0 {
      PrefixHead(t, r);
    }
  }

  /** `trim()` yields an infix of the input with only white space cut on
      either side. */
  lemma TrimSpec(s: string)
    ensures exists i | 0 <= i <= |s| :: OccursAt(s, Trim(s), i) && AllWs(s[..i]) && AllWs(s[i + |Trim(s)|..])
  {
    var t := TrimStart(s);
    var r := TrimEnd(t);
    assert r == Trim(s);
    var i := |s| - |t|;
    OccursParts(s, t, r, i);
    TrimStartCut(s);
    AllWsPrefix(s, i);
    TrimEndCut(t);
    AllWsSuffix(t, |r|);
    assert OccursAt(s, r, i) && AllWs(s[..i]) && AllWs(s[i + |r|..]);
  }

  lemma OccursParts(s: string, t: string, r: string, i: nat)
    requires i <= |s| && t == s[i..] && |r| <= |t| && r == t[..|r|]
    ensures OccursAt(s, r, i) && s[i + |r|..] == t[|r|..]
  {
  }

  lemma PrefixHead(t: string, r: string)
    requires 0 < |r| <= |t| && r == t[..|r|]
    ensures r[0] == t[0]
  {
  }

  lemma AllWsPrefix(s: string, i: nat)
    requires i <= |s| && forall k :: 0 <= k < i ==> IsWs(s[k])
    ensures AllWs(s[..i])
  {
  }

  lemma AllWsSuffix(t: string, m: nat)
    requires m <= |t| && forall k :: m <= k < |t| ==> IsWs(t[k])
    ensures AllWs(t[m..])
  {
  }

  /** A string with no white space is its own trim. */
  lemma TrimNoWs(s: string)
    requires NoWs(s)
    ensures Trim(s) == s
  {
  }

  /** Number of occurrences of `c` in `s`. */
  function Count(s: string, c: char): nat
  {
    if |s| == 0 then 0 else (if s[0] == c then 1 else 0) + Count(s[1..], c)
  }

  /** `s.split(sep)` for a one-character separator. */
  function Split(s: string, sep: char): (r: seq<string>)
    ensures |r| >= 1
    decreases |s|
  {
    if |s| == 0 then [""]
    else if s[0] == sep then [""] + Split(s[1..], sep)
    else var rest := Split(s[1..], sep); [[s[0]] + rest[0]] + rest[1..]
  }

  /** Inverse of `Split`: `pieces.join(sep)`. */
  function Join(pieces: seq<string>, sep: char): string
    decreases |pieces|
  {
    if |pieces| == 0 then ""
    else if |pieces| == 1 then pieces[0]
    else pieces[0] + [sep] + Join(pieces[1..], sep)
  }

  /** Splitting yields one more piece than there are separators, no piece holds
      the separator, and joining the pieces gives the input back. */
  lemma {:induction false} SplitSpec(s: string, sep: char)
    ensures |Split(s, sep)| == Count(s, sep) + 1
    ensures forall k :: 0 <= k < |Split(s, sep)| ==> sep !in Split(s, sep)[k]
    ensures Join(Split(s, sep), sep) == s
    decreases |s|, 1
  {
    if |s| > 0 {
      if s[0] == sep {
        SplitSpecSep(s, sep);
      } else {
        SplitSpecChar(s, sep);
      }
    }
  }

  lemma {:induction false} SplitSpecSep(s: string, sep: char)
    requires |s| > 0 && s[0] == sep
    ensures |Split(s, sep)| == Count(s, sep) + 1
    ensures forall k :: 0 <= k < |Split(s, sep)| ==> sep !in Split(s, sep)[k]
    ensures Join(Split(s, sep), sep) == s
    decreases |s|, 0
  {
    SplitSpec(s[1..], sep);
    var rest := Split(s[1..], sep);
    assert Split(s, sep) == [""] + rest;
    assert ([""] + rest)[1..] == rest;
  }

  lemma {:induction false} SplitSpecChar(s: string, sep: char)
    requires |s| > 0 && s[0] != sep
    ensures |Split(s, sep)| == Count(s, sep) + 1
    ensures forall k :: 0 <= k < |Split(s, sep)| ==> sep !in Split(s, sep)[k]
    ensures Join(Split(s, sep), sep) == s
    decreases |s|, 0
  {
    SplitSpec(s[1..], sep);
    var rest := Split(s[1..], sep);
    var r := Split(s, sep);
    assert r == [[s[0]] + rest[0]] + rest[1..];
    forall k | 0 <= k < |r| ensures sep !in r[k] {
      if k == 0 {
        assert sep !in rest[0];
      } else {
        assert r[k] == rest[k];
      }
    }
    if |rest| == 1 {
      assert Join(r, sep) == [s[0]] + rest[0];
    } else {
      assert r[1..] == rest[1..];
      assert Join(rest, sep) == rest[0] + [sep] + Join(rest[1..], sep);
    }
  }

  /** `s` split on exactly one separator: the two pieces are the text before
      and after its only occurrence. */
  lemma SplitTwo(s: string, sep: char, i: nat)
    requires i < |s| && s[i] == sep && sep !in s[..i] && sep !in s[i + 1..]
    ensures Split(s, sep) == [s[..i], s[i + 1..]]
    decreases i
  {
    if i == 0 {
      assert s[1..] == s[i + 1..];
      SplitNone(s[1..], sep);
    } else {
      assert s[1..][..i - 1] == s[1..i];
      assert s[1..][i - 1 + 1..] == s[i + 1..];
      SplitTwo(s[1..], sep, i - 1);
      assert [s[0]] + s[1..i] == s[..i];
    }
  }

  lemma SplitNone(s: string, sep: char)
    requires sep !in s
    ensures Split(s, sep) == [s]
    decreases |s|
  {
    if |s| > 0 {
      SplitNone(s[1..], sep);
      assert [s[0]] + s[1..] == s;
    }
  }

  /** Length of the run of white space at the start of `s`. */
  function LeadWs(s: string): (n: nat)
    ensures n <= |s|
    ensures |s| > 0 && IsWs(s[0]) ==> n > 0
    decreases |s|
  {
    if |s| > 0 && IsWs(s[0]) then 1 + LeadWs(s[1..]) else 0
  }

  /** The leading run is all white space and is maximal. */
  lemma {:induction false} LeadWsSpec(s: string)
    ensures AllWs(s[..LeadWs(s)])
    ensures LeadWs(s) == |s| || !IsWs(s[LeadWs(s)])
    decreases |s|
  {
    if |s| > 0 && IsWs(s[0]) {
      var n := LeadWs(s[1..]);
      LeadWsSpec(s[1..]);
      var u := s[..1 + n];
      forall j | 0 <= j < |u| ensures IsWs(u[j]) {
        if j > 0 {
          assert u[j] == s[1..][..n][j - 1];
        }
      }
      if 1 + n < |s| {
        assert s[1 + n] == s[1..][n];
      }
    }
  }

  /** A white-space run followed by the end or by a word is the leading run. */
  lemma {:induction false} LeadWsOf(w: string, b: string)
    requires AllWs(w) && (b == [] || !IsWs(b[0]))
    ensures LeadWs(w + b) == |w|
    decreases |w|
  {
    if |w| > 0 {
      assert (w + b)[1..] == w[1..] + b;
      LeadWsOf(w[1..], b);
    } else {
      assert w + b == b;
    }
  }

  /** `s.split(/\s+/)`: pieces separated by maximal runs of white space; a
      leading or trailing run yields an empty first or last piece. */
  function SplitWs(s: string): (r: seq<string>)
    ensures |r| >= 1
    decreases |s|
  {
    if |s| == 0 then [""]
    else if IsWs(s[0]) then [""] + SplitWs(s[LeadWs(s)..])
    else
      var rest := SplitWs(s[1..]);
      [[s[0]] + rest[0]] + rest[1..]
  }

  /** The maximal runs of white space that `SplitWs` splits at, in order. */
  function WsRuns(s: string): seq<string>
    decreases |s|
  {
    if |s| == 0 then []
    else if IsWs(s[0]) then [s[..LeadWs(s)]] + WsRuns(s[LeadWs(s)..])
    else WsRuns(s[1..])
  }

  /** `pieces[0] + seps[0] + pieces[1] + … + pieces[n]`: the pieces of a split
      put back together with the separators between them. */
  function Interleave(pieces: seq<string>, seps: seq<string>): string
    requires |pieces| == |seps| + 1
    decreases |seps|
  {
    if |seps| == 0 then pieces[0] else pieces[0] + seps[0] + Interleave(pieces[1..], seps[1..])
  }

  lemma {:induction false} InterleaveCons(c: char, pieces: seq<string>, seps: seq<string>)
    requires |pieces| == |seps| + 1
    ensures Interleave([[c] + pieces[0]] + pieces[1..], seps) == [c] + Interleave(pieces, seps)
  {
    var q := [[c] + pieces[0]] + pieces[1..];
    if |seps| > 0 {
      assert q[1..] == pieces[1..];
      assert q[0] == [c] + pieces[0];
    }
  }

  /** `split(/\s+/)` cuts the string at its white-space runs: the runs are
      non-empty and all white space, no piece holds white space, there is one
      more piece than runs, and the pieces with the runs between them give the
      string back. Only the first piece can be empty at the start and only the
      last at the end: the first is empty exactly when the string starts with
      white space (or is empty), the last exactly when it ends with white
      space. */
  lemma SplitWsSpec(s: string)
    ensures forall k :: 0 <= k < |SplitWs(s)| ==> NoWs(SplitWs(s)[k])
    ensures forall k :: 0 <= k < |WsRuns(s)| ==> |WsRuns(s)[k]| > 0 && AllWs(WsRuns(s)[k])
    ensures |SplitWs(s)| == |WsRuns(s)| + 1
    ensures Interleave(SplitWs(s), WsRuns(s)) == s
    ensures |SplitWs(s)[0]| == 0 <==> |s| == 0 || IsWs(s[0])
    ensures forall k :: 0 < k < |SplitWs(s)| - 1 ==> |SplitWs(s)[k]| > 0
    ensures var r := SplitWs(s); |r[|r| - 1]| == 0 <==> |s| == 0 || IsWs(s[|s| - 1])
  {
    SplitWsNoWs(s);
    WsRunsAreRuns(s);
    SplitWsRuns(s);
    SplitWsFirst(s);
    SplitWsMiddle(s);
    SplitWsLast(s);
  }

  lemma LeadUnfold(s: string)
    requires |s| > 0 && IsWs(s[0])
    ensures SplitWs(s) == [""] + SplitWs(s[LeadWs(s)..])
  {
  }

  lemma LeadRuns(s: string)
    requires |s| > 0 && IsWs(s[0])
    ensures WsRuns(s) == [s[..LeadWs(s)]] + WsRuns(s[LeadWs(s)..])
  {
  }

  lemma TakeDrop(s: string, k: nat)
    requires k <= |s|
    ensures s[..k] + s[k..] == s
  {
  }

  lemma HeadUnfold(s: string)
    requires |s| > 0 && !IsWs(s[0])
    ensures SplitWs(s) == [[s[0]] + SplitWs(s[1..])[0]] + SplitWs(s[1..])[1..]
    ensures WsRuns(s) == WsRuns(s[1..])
  {
  }

  /** Every run is a non-empty stretch of white space. */
  lemma {:induction false} WsRunsAreRuns(s: string)
    ensures forall k :: 0 <= k < |WsRuns(s)| ==> |WsRuns(s)[k]| > 0 && AllWs(WsRuns(s)[k])
    decreases |s|
  {
    if |s| > 0 {
      if IsWs(s[0]) {
        var n := LeadWs(s);
        LeadRuns(s);
        LeadWsSpec(s);
        WsRunsAreRuns(s[n..]);
        assert forall k :: 1 <= k < |WsRuns(s)| ==> WsRuns(s)[k] == WsRuns(s[n..])[k - 1];
      } else {
        HeadUnfold(s);
        WsRunsAreRuns(s[1..]);
      }
    }
  }

  /** No piece of `split(/\s+/)` holds white space. */
  lemma {:induction false} SplitWsNoWs(s: string)
    ensures forall k :: 0 <= k < |SplitWs(s)| ==> NoWs(SplitWs(s)[k])
    decreases |s|, 1
  {
    if |s| > 0 {
      if IsWs(s[0]) {
        NoWsLead(s);
      } else {
        NoWsHead(s);
      }
    }
  }

  lemma {:induction false} NoWsLead(s: string)
    requires |s| > 0 && IsWs(s[0])
    ensures forall k :: 0 <= k < |SplitWs(s)| ==> NoWs(SplitWs(s)[k])
    decreases |s|, 0
  {
    var t := s[LeadWs(s)..];
    LeadUnfold(s);
    SplitWsNoWs(t);
    assert forall k :: 1 <= k < |SplitWs(s)| ==> SplitWs(s)[k] == SplitWs(t)[k - 1];
  }

  lemma {:induction false} NoWsHead(s: string)
    requires |s| > 0 && !IsWs(s[0])
    ensures forall k :: 0 <= k < |SplitWs(s)| ==> NoWs(SplitWs(s)[k])
    decreases |s|, 0
  {
    var rest := SplitWs(s[1..]);
    HeadUnfold(s);
    SplitWsNoWs(s[1..]);
    assert NoWs(rest[0]);
    assert forall k :: 1 <= k < |SplitWs(s)| ==> SplitWs(s)[k] == rest[k];
  }

  lemma InterleaveLead(lead: string, p: seq<string>, w: seq<string>)
    requires |p| == |w| + 1
    ensures Interleave([""] + p, [lead] + w) == lead + Interleave(p, w)
  {
    var pp := [""] + p;
    var ww := [lead] + w;
    assert pp[1..] == p && ww[1..] == w;
    assert Interleave(pp, ww) == pp[0] + ww[0] + Interleave(p, w);
    assert pp[0] + ww[0] == lead;
  }

  /** The pieces and the runs between them make up the string. */
  lemma {:induction false} SplitWsRuns(s: string)
    ensures |SplitWs(s)| == |WsRuns(s)| + 1
    ensures Interleave(SplitWs(s), WsRuns(s)) == s
    decreases |s|
  {
    if |s| > 0 {
      if IsWs(s[0]) {
        var n := LeadWs(s);
        LeadUnfold(s);
        LeadRuns(s);
        SplitWsRuns(s[n..]);
        InterleaveLead(s[..n], SplitWs(s[n..]), WsRuns(s[n..]));
        TakeDrop(s, n);
      } else {
        HeadUnfold(s);
        SplitWsRuns(s[1..]);
        InterleaveCons(s[0], SplitWs(s[1..]), WsRuns(s[1..]));
        assert [s[0]] + s[1..] == s;
      }
    }
  }

  /** The first piece is empty exactly when the string starts with white space. */
  lemma SplitWsFirst(s: string)
    ensures |SplitWs(s)[0]| == 0 <==> |s| == 0 || IsWs(s[0])
  {
    if |s| > 0 && !IsWs(s[0]) {
      HeadUnfold(s);
    }
  }

  /** No piece strictly between the first and the last is empty. */
  lemma {:induction false} SplitWsMiddle(s: string)
    ensures forall k :: 0 < k < |SplitWs(s)| - 1 ==> |SplitWs(s)[k]| > 0
    decreases |s|, 1
  {
    if |s| > 0 {
      if IsWs(s[0]) {
        MiddleLead(s);
      } else {
        MiddleHead(s);
      }
    }
  }

  lemma {:induction false} MiddleLead(s: string)
    requires |s| > 0 && IsWs(s[0])
    ensures forall k :: 0 < k < |SplitWs(s)| - 1 ==> |SplitWs(s)[k]| > 0
    decreases |s|, 0
  {
    var t := s[LeadWs(s)..];
    LeadUnfold(s);
    LeadWsSpec(s);
    SplitWsMiddle(t);
    if |t| > 0 {
      assert t[0] == s[LeadWs(s)];
    }
    SplitWsFirst(t);
    assert forall k :: 1 <= k < |SplitWs(s)| ==> SplitWs(s)[k] == SplitWs(t)[k - 1];
  }

  lemma {:induction false} MiddleHead(s: string)
    requires |s| > 0 && !IsWs(s[0])
    ensures forall k :: 0 < k < |SplitWs(s)| - 1 ==> |SplitWs(s)[k]| > 0
    decreases |s|, 0
  {
    var rest := SplitWs(s[1..]);
    HeadUnfold(s);
    SplitWsMiddle(s[1..]);
    assert forall k :: 1 <= k < |SplitWs(s)| ==> SplitWs(s)[k] == rest[k];
  }

  /** The last piece is empty exactly when the string ends with white space. */
  lemma {:induction false} SplitWsLast(s: string)
    ensures var r := SplitWs(s); |r[|r| - 1]| == 0 <==> |s| == 0 || IsWs(s[|s| - 1])
    decreases |s|, 1
  {
    if |s| > 0 {
      if IsWs(s[0]) {
        SplitWsLastLead(s);
      } else {
        SplitWsLastHead(s);
      }
    }
  }

  lemma {:induction false} SplitWsLastLead(s: string)
    requires |s| > 0 && IsWs(s[0])
    ensures var r := SplitWs(s); |r[|r| - 1]| == 0 <==> IsWs(s[|s| - 1])
    decreases |s|, 0
  {
    SplitWsLast(s[LeadWs(s)..]);
    LastLead(s);
  }

  lemma {:induction false} SplitWsLastHead(s: string)
    requires |s| > 0 && !IsWs(s[0])
    ensures var r := SplitWs(s); |r[|r| - 1]| == 0 <==> IsWs(s[|s| - 1])
    decreases |s|, 0
  {
    SplitWsLast(s[1..]);
    LastHead(s);
  }

  lemma LastLead(s: string)
    requires |s| > 0 && IsWs(s[0])
    requires var t := s[LeadWs(s)..]; var r := SplitWs(t); |r[|r| - 1]| == 0 <==> |t| == 0 || IsWs(t[|t| - 1])
    ensures var r := SplitWs(s); |r[|r| - 1]| == 0 <==> IsWs(s[|s| - 1])
  {
    var t := s[LeadWs(s)..];
    var r, rt := SplitWs(s), SplitWs(t);
    LeadUnfold(s);
    assert r[|r| - 1] == rt[|rt| - 1];
    if |t| > 0 {
      assert s[|s| - 1] == t[|t| - 1];
    } else {
      AllLeadWs(s);
    }
  }

  /** A string that is one run of white space ends with white space. */
  lemma AllLeadWs(s: string)
    requires |s| > 0 && LeadWs(s) == |s|
    ensures IsWs(s[|s| - 1])
  {
    LeadWsSpec(s);
    assert s[..|s|][|s| - 1] == s[|s| - 1];
  }

  lemma LastHead(s: string)
    requires |s| > 0 && !IsWs(s[0])
    requires var t := s[1..]; var r := SplitWs(t); |r[|r| - 1]| == 0 <==> |t| == 0 || IsWs(t[|t| - 1])
    ensures var r := SplitWs(s); |r[|r| - 1]| == 0 <==> IsWs(s[|s| - 1])
  {
    var rest := SplitWs(s[1..]);
    HeadUnfold(s);
    var r := SplitWs(s);
    if |s| > 1 {
      assert s[|s| - 1] == s[1..][|s| - 2];
    }
    if |rest| > 1 {
      assert r[|r| - 1] == rest[|rest| - 1];
    } else {
      assert r[|r| - 1] == [s[0]] + rest[0];
      if |s| > 1 && |rest[0]| == 0 {
        SplitWsFirst(s[1..]);
      }
    }
  }

  /** A word in front adds no run. */
  lemma {:induction false} WsRunsWord(a: string, rest: string)
    requires NoWs(a)
    ensures WsRuns(a + rest) == WsRuns(rest)
    decreases |a|
  {
    if |a| == 0 {
      assert a + rest == rest;
    } else {
      HeadUnfold(a + rest);
      assert (a + rest)[1..] == a[1..] + rest;
      WsRunsWord(a[1..], rest);
    }
  }

  /** A run in front of a word is the first run. */
  lemma WsRunsLead(w: string, rest: string)
    requires AllWs(w) && |w| > 0 && (rest == [] || !IsWs(rest[0]))
    ensures WsRuns(w + rest) == [w] + WsRuns(rest)
  {
    LeadWsOf(w, rest);
    LeadRuns(w + rest);
    assert (w + rest)[..|w|] == w;
    assert (w + rest)[|w|..] == rest;
  }

  /** A run followed by a last word is the only run. */
  lemma WsRunsOne(w: string, c: string)
    requires AllWs(w) && |w| > 0 && NoWs(c)
    ensures WsRuns(w + c) == [w]
  {
    WsRunsWord(c, "");
    assert c + "" == c;
    WsRunsLead(w, c);
  }

  /** A run and a word in front add that run. */
  lemma WsRunsPrepend(w: string, b: string, rest: string)
    requires AllWs(w) && |w| > 0 && NoWs(b) && |b| > 0
    ensures WsRuns(w + (b + rest)) == [w] + WsRuns(rest)
  {
    var r := b + rest;
    assert r[0] == b[0];
    WsRunsLead(w, r);
    WsRunsWord(b, rest);
  }

  /** Three words have the two runs between them. */
  lemma WsRunsTwo(a: string, w1: string, b: string, w2: string, c: string)
    requires |b| > 0 && NoWs(a) && NoWs(b) && NoWs(c) && AllWs(w1) && AllWs(w2) && |w1| > 0 && |w2| > 0
    ensures WsRuns(a + w1 + b + w2 + c) == [w1, w2]
  {
    var r1 := w1 + (b + (w2 + c));
    WsRunsOne(w2, c);
    WsRunsPrepend(w1, b, w2 + c);
    WsRunsWord(a, r1);
    Assoc5(a, w1, b, w2, c);
  }

  lemma Assoc5(a: string, w1: string, b: string, w2: string, c: string)
    ensures a + w1 + b + w2 + c == a + (w1 + (b + (w2 + c)))
  {
  }

  /** A string without white space is a single piece. */
  lemma {:induction false} SplitWsNone(s: string)
    requires NoWs(s)
    ensures SplitWs(s) == [s]
    decreases |s|
  {
    if |s| > 0 {
      SplitWsNone(s[1..]);
      assert [s[0]] + s[1..] == s;
    }
  }

  /** Two words around one run of white space split into exactly those two
      words. */
  lemma {:induction false} SplitWsTwo(a: string, w: string, b: string)
    requires NoWs(a) && NoWs(b) && AllWs(w) && |w| > 0
    ensures SplitWs(a + w + b) == [a, b]
    decreases |a|
  {
    var s := a + w + b;
    if |a| == 0 {
      assert s == w + b;
      LeadWsOf(w, b);
      LeadUnfold(w + b);
      assert (w + b)[|w|..] == b;
      SplitWsNone(b);
    } else {
      assert s[1..] == a[1..] + w + b;
      SplitWsTwo(a[1..], w, b);
      assert [s[0]] + a[1..] == a;
    }
  }

  /** The pieces of `SplitWs` hold no white space, so trimming them changes nothing. */
  lemma SplitWsPiecesTrimmed(s: string)
    ensures forall k :: 0 <= k < |SplitWs(s)| ==> Trim(SplitWs(s)[k]) == SplitWs(s)[k]
  {
    SplitWsNoWs(s);
    forall k | 0 <= k < |SplitWs(s)| ensures Trim(SplitWs(s)[k]) == SplitWs(s)[k] {
      TrimNoWs(SplitWs(s)[k]);
    }
  }

  /** `needle` occurs in `hay` at index `i`. */
  predicate OccursAt(hay: string, needle: string, i: nat)
  {
    i + |needle| <= |hay| && hay[i..i + |needle|] == needle
  }

  /** `hay.includes(needle)`. */
  predicate Contains(hay: string, needle: string)
  {
    exists i | 0 <= i <= |hay| :: OccursAt(hay, needle, i)
  }

  lemma ContainsEmpty(hay: string)
    ensures Contains(hay, "")
  {
    assert OccursAt(hay, "", 0);
  }

  predicate StartsWith(s: string, prefix: string)
  {
    |prefix| <= |s| && s[..|prefix|] == prefix
  }

  predicate EndsWith(s: string, suffix: string)
  {
    |suffix| <= |s| && s[|s| - |suffix|..] == suffix
  }

  predicate IsDigit(c: char)
  {
    '0' <= c <= '9'
  }

  /** Decimal digits of a natural number, as a template literal prints it. */
  function NatToString(n: nat): (r: string)
    ensures |r| >= 1 && IsDigit(r[0]) && IsDigit(r[|r| - 1])
    decreases n
  {
    var d := ('0' as int + n % 10) as char;
    if n < 10 then [d] else NatToString(n / 10) + [d]
  }

  /** The number a string of decimal digits denotes. */
  function DigitsValue(s: string): nat
    decreases |s|
  {
    if |s| == 0 then 0
    else
      var d := s[|s| - 1] as int - '0' as int;
      DigitsValue(s[..|s| - 1]) * 10 + (if 0 <= d then d else 0)
  }

  /** Printing a natural number and reading its digits back gives it again. */
  lemma {:induction false} NatToStringRoundTrip(n: nat)
    ensures DigitsValue(NatToString(n)) == n
    ensures forall k :: 0 <= k < |NatToString(n)| ==> IsDigit(NatToString(n)[k])
    decreases n
  {
    var r := NatToString(n);
    if n >= 10 {
      NatToStringRoundTrip(n / 10);
      assert r[..|r| - 1] == NatToString(n / 10);
    }
  }

  /** `${i}` for an integer. */
  function IntToString(i: int): (r: string)
    ensures |r| >= 1 && IsDigit(r[|r| - 1])
    ensures i < 0 <==> r[0] == '-'
  {
    if i < 0 then "-" + NatToString(-i) else NatToString(i)
  }

  /** The integer an optional minus sign and decimal digits denote. */
  function ParseInt(s: string): int
  {
    if |s| > 0 && s[0] == '-' then 0 - DigitsValue(s[1..]) as int else DigitsValue(s)
  }

  /** Printing an integer and parsing it back gives it again; the text holds
      no white space. */
  lemma IntToStringRoundTrip(i: int)
    ensures ParseInt(IntToString(i)) == i
    ensures ' ' !in IntToString(i)
  {
    var n: nat := if i < 0 then -i else i;
    var d := NatToString(n);
    NatToStringRoundTrip(n);
    DigitsNoSpace(d);
    if i < 0 {
      SignedDigits(d);
    }
  }

  lemma DigitsNoSpace(d: string)
    requires forall k :: 0 <= k < |d| ==> IsDigit(d[k])
    ensures ' ' !in d
  {
  }

  lemma SignedDigits(d: string)
    requires ' ' !in d
    ensures ("-" + d)[1..] == d && ' ' !in "-" + d
  {
  }

  /** Different integers print differently. */
  lemma IntToStringInjective(i: int, j: int)
    requires IntToString(i) == IntToString(j)
    ensures i == j
  {
    IntToStringRoundTrip(i);
    IntToStringRoundTrip(j);
  }
}
