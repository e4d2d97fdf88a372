/**
 * Loading a log file: the textual `NaN` clean-up applied before JSON
 * parsing, and the option lists and initial selections derived from the
 * parsed records.
 */
module Ingestion {
  import opened Collections
  import opened StableSort
  import opened JsText
  import opened Records

  // ---------------------------------------------------------------------
  // The rewrite of `/:\s*NaN/g` to ": null"
  // ---------------------------------------------------------------------

  /** `s` starts with the three characters `NaN`. */
  predicate StartsWithNaN(s: string)
  {
    |s| >= 3 && s[0] == 'N' && s[1] == 'a' && s[2] == 'N'
  }

  /**
   * The length of the match of `:\s*NaN` at the very start of `s`, or 0 when
   * there is none. Since no character of `NaN` is white space, the greedy
   * `\s*` never has to give characters back, so the match, when there is
   * one, spans the colon, the whole white-space run after it and `NaN`.
   */
  function MatchLen(s: string): (m: nat)
    ensures m <= |s|
    ensures m > 0 ==> m >= 4 && s[0] == ':' && StartsWithNaN(s[m - 3..])
  {
    if s == [] || s[0] != ':' then 0
    else
      var k := 1 + SpaceRun(s[1..]);
      if StartsWithNaN(s[k..]) then k + 3 else 0
  }

  /**
   * Every match at the start is found, with its full length: a colon, a run
   * of white space and `NaN` spanning `n` characters give a match of length `n`.
   */
  lemma MatchLenFindsEveryMatch(s: string, n: nat)
    requires 4 <= n <= |s| && s[0] == ':'
    requires forall i :: 1 <= i < n - 3 ==> IsJsSpace(s[i])
    requires StartsWithNaN(s[n - 3..])
    ensures MatchLen(s) == n
  {
    var t := s[1..];
    var k := SpaceRun(t);
    assert k == n - 4 by {
      assert forall i :: 0 <= i < n - 4 ==> t[i] == s[i + 1];
      assert t[n - 4] == 'N';
    }
    assert s[1 + k..] == s[n - 3..];
  }

  /** Between the colon and `NaN` a match holds only white space. */
  lemma MatchSpansSpaces(s: string)
    ensures var m := MatchLen(s); m > 0 ==> forall i :: 1 <= i < m - 3 ==> IsJsSpace(s[i])
  {
    if MatchLen(s) > 0 {
      var t := s[1..];
      forall i | 1 <= i < MatchLen(s) - 3
        ensures IsJsSpace(s[i])
      {
        assert s[i] == t[i - 1];
      }
    }
  }

  /**
   * `text.replace(/:\s*NaN/g, ': null')`: scanning left to right, each match
   * is replaced and scanning resumes after it; elsewhere the scan moves on by
   * one character.
   */
  function ReplaceNaN(s: string): (r: string)
  {
    if s == [] then []
    else
      var m := MatchLen(s);
      if m > 0 then ": null" + ReplaceNaN(s[m..])
      else [s[0]] + ReplaceNaN(s[1..])
  }

  /** No position of `s` starts a match of `:\s*NaN`. */
  ghost predicate FreeOfNaN(s: string)
  {
    forall i :: 0 <= i < |s| ==> MatchLen(s[i..]) == 0
  }

  /** The rewrite keeps the first character: a replacement starts with the colon it replaces. */
  lemma ReplaceKeepsHead(s: string)
    requires s != []
    ensures |ReplaceNaN(s)| > 0 && ReplaceNaN(s)[0] == s[0]
  {
  }

  /** A prefix without colons starts no match and is copied unchanged. */
  lemma {:induction false} ReplaceKeepsColonFree(p: string, t: string)
    requires ':' !in p
    ensures ReplaceNaN(p + t) == p + ReplaceNaN(t)
  {
    if p == [] {
      assert p + t == t;
    } else {
      var c, q := p[0], p[1..];
      assert p == [c] + q;
      ReplaceKeepsColonFree(q, t);
      AppendAssoc([c], q, t);
      ReplacePassesChar(c, q + t);
      AppendAssoc([c], q, ReplaceNaN(t));
    }
  }

  /** A leading white-space run is copied unchanged. */
  lemma ReplaceKeepsSpaces(s: string)
    ensures ReplaceNaN(s) == s[..SpaceRun(s)] + ReplaceNaN(s[SpaceRun(s)..])
  {
    var k := SpaceRun(s);
    assert s == s[..k] + s[k..];
    assert ':' !in s[..k] by {
      assert !IsJsSpace(':');
    }
    ReplaceKeepsColonFree(s[..k], s[k..]);
  }

  lemma {:induction false} SpaceRunConcat(a: string, b: string)
    requires forall i :: 0 <= i < |a| ==> IsJsSpace(a[i])
    ensures SpaceRun(a + b) == |a| + SpaceRun(b)
  {
    if a != [] {
      assert (a + b)[1..] == a[1..] + b;
      SpaceRunConcat(a[1..], b);
    } else {
      assert a + b == b;
    }
  }

  /** The rewritten text starts with `NaN` only when the original did. */
  lemma NaNReflected(u: string)
    requires StartsWithNaN(ReplaceNaN(u))
    ensures StartsWithNaN(u)
  {
    var r := ReplaceNaN(u);
    ReplaceKeepsHead(u);
    var u1 := u[1..];
    assert ReplaceNaN(u1) == r[1..];
    ReplaceKeepsHead(u1);
    var u2 := u1[1..];
    assert ReplaceNaN(u2) == r[2..];
    ReplaceKeepsHead(u2);
  }

  /** A text starting with a colon starts a match exactly when `NaN` follows the white space after it. */
  lemma MatchLenColon(x: string)
    ensures MatchLen([':'] + x) > 0 <==> StartsWithNaN(x[SpaceRun(x)..])
  {
    var s := [':'] + x;
    assert s[1..] == x;
    assert s[SpaceRun(x) + 1..] == x[SpaceRun(x)..];
  }

  /** No match starts at the first position of a rewritten text. */
  lemma NoMatchAtStart(s: string)
    ensures MatchLen(ReplaceNaN(s)) == 0
  {
    if s != [] && s[0] == ':' {
      if MatchLen(s) > 0 {
        ReplacementHasNoMatch(ReplaceNaN(s[MatchLen(s)..]));
      } else {
        KeptColonHasNoMatch(s);
      }
    }
  }

  /** `: null` followed by anything starts no match. */
  lemma ReplacementHasNoMatch(rest: string)
    ensures MatchLen(": null" + rest) == 0
  {
    var x := " null" + rest;
    assert ": null" + rest == [':'] + x;
    assert x[1..][0] == 'n';
    assert SpaceRun(x) == 1;
    MatchLenColon(x);
  }

  /** A colon that the rewrite kept still starts no match after the rewrite. */
  lemma KeptColonHasNoMatch(s: string)
    requires s != [] && s[0] == ':' && MatchLen(s) == 0
    ensures MatchLen(ReplaceNaN(s)) == 0
  {
    var t := s[1..];
    assert s == [':'] + t;
    var k := SpaceRun(t);
    var rest := ReplaceNaN(t[k..]);
    ReplaceKeepsSpaces(t);
    var x := t[..k] + rest;
    assert ReplaceNaN(s) == [':'] + x;
    SpaceRunConcat(t[..k], rest);
    if rest != [] {
      ReplaceKeepsHead(t[k..]);
    }
    assert SpaceRun(x) == k;
    assert x[k..] == rest;
    MatchLenColon(t);
    MatchLenColon(x);
    if StartsWithNaN(rest) {
      NaNReflected(t[k..]);
    }
  }

  /** After the rewrite no match is left anywhere. */
  lemma {:induction false} ReplacedIsFree(s: string)
    ensures FreeOfNaN(ReplaceNaN(s))
  {
    if s != [] {
      var m := MatchLen(s);
      var head: string := if m > 0 then ": null" else [s[0]];
      var tail := if m > 0 then s[m..] else s[1..];
      ReplacedIsFree(tail);
      NoMatchAtStart(s);
      assert ReplaceNaN(s) == head + ReplaceNaN(tail);
      FreeAfterHead(head, ReplaceNaN(tail));
    }
  }

  /**
   * A text free of matches stays free when a head is put in front of it that
   * starts no match and has no colon after its first character.
   */
  lemma FreeAfterHead(head: string, rest: string)
    requires head != [] && forall i :: 1 <= i < |head| ==> head[i] != ':'
    requires MatchLen(head + rest) == 0 && FreeOfNaN(rest)
    ensures FreeOfNaN(head + rest)
  {
    var r := head + rest;
    forall i | 0 <= i < |r|
      ensures MatchLen(r[i..]) == 0
    {
      if i == 0 {
        assert r[i..] == r;
      } else if i >= |head| {
        assert r[i..] == rest[i - |head|..];
      } else {
        assert r[i..][0] == head[i];
      }
    }
  }

  /** Text with no match is left unchanged. */
  lemma {:induction false} FreeUnchanged(s: string)
    requires FreeOfNaN(s)
    ensures ReplaceNaN(s) == s
  {
    if s != [] {
      assert MatchLen(s[0..]) == 0 by {
        assert s[0..] == s;
      }
      assert FreeOfNaN(s[1..]) by {
        forall i | 0 <= i < |s[1..]|
          ensures MatchLen(s[1..][i..]) == 0
        {
          assert s[1..][i..] == s[i + 1..];
        }
      }
      FreeUnchanged(s[1..]);
      assert s == [s[0]] + s[1..];
    }
  }

  /** The rewrite leaves a text unchanged exactly when the text holds no match. */
  lemma ReplaceFixedPoints(s: string)
    ensures ReplaceNaN(s) == s <==> FreeOfNaN(s)
  {
    ReplacedIsFree(s);
    if FreeOfNaN(s) {
      FreeUnchanged(s);
    }
  }

  /** Cleaning an already cleaned text changes nothing. */
  lemma ReplaceIdempotent(s: string)
    ensures ReplaceNaN(ReplaceNaN(s)) == ReplaceNaN(s)
  {
    ReplacedIsFree(s);
    FreeUnchanged(ReplaceNaN(s));
  }

  /** A character other than a colon is copied and the scan moves on. */
  lemma ReplacePassesChar(c: char, rest: string)
    requires c != ':'
    ensures ReplaceNaN([c] + rest) == [c] + ReplaceNaN(rest)
  {
    assert ([c] + rest)[1..] == rest;
  }

  /** A colon, two spaces and `NaN` become a colon, one space and `null`. */
  lemma ReplaceExample()
    ensures ReplaceNaN(":  NaN}") == ": null}"
  {
    var t := ":  NaN}";
    assert SpaceRun("NaN}") == 0;
    assert SpaceRun(" NaN}") == 1 by {
      assert " NaN}"[1..] == "NaN}";
    }
    assert SpaceRun("  NaN}") == 2 by {
      assert "  NaN}"[1..] == " NaN}";
    }
    assert t[1..] == "  NaN}";
    assert MatchLen(t) == 6 by {
      assert t[3..] == "NaN}";
    }
    assert t[6..] == "}";
    assert ReplaceNaN("}") == "}" by {
      ReplacePassesChar('}', []);
    }
  }

  // ---------------------------------------------------------------------
  // Option lists and initial selections after an upload
  // ---------------------------------------------------------------------

  /** `Boolean(v)` for a key field: only the empty (or missing) value is falsy. */
  predicate IsTruthy(v: string)
  {
    v != ""
  }

  /** `[...new Set(data.map(r => r[d]))].filter(Boolean)`. */
  function FirstSeenOptions(data: seq<Record>, d: Dimension): seq<string>
  {
    Filter(Distinct(Column(data, d)), IsTruthy)
  }

  /** The four option lists computed when a file is loaded; run ids are sorted. */
  function UploadOptions(data: seq<Record>): OptionLists
  {
    OptionLists(
      FirstSeenOptions(data, Model),
      FirstSeenOptions(data, Env),
      FirstSeenOptions(data, Level),
      SortBy(FirstSeenOptions(data, RunId), StringLe))
  }

  /** The run id selected after loading: the first in sorted order, or "all" when there is none. */
  function InitialRunId(runIds: seq<string>): (id: string)
    ensures |runIds| > 0 ==> id in runIds
  {
    if |runIds| > 0 then runIds[0] else ALL
  }

  /** The selections installed by a file upload. */
  function UploadSelections(data: seq<Record>): (sel: Selections)
    ensures sel.model == ALL && sel.env == ALL && sel.level == ALL
  {
    Selections(ALL, ALL, ALL, InitialRunId(UploadOptions(data).runIds))
  }

  /**
   * The model, environment and level lists hold every non-empty value of
   * their field exactly once, in the order of first appearance in the file.
   */
  lemma FirstSeenOptionsShape(data: seq<Record>, d: Dimension)
    ensures NoDup(FirstSeenOptions(data, d))
    ensures forall v :: v in FirstSeenOptions(data, d) <==> v != "" && v in Column(data, d)
    ensures InFirstSeenOrder(FirstSeenOptions(data, d), Column(data, d))
  {
    var col := Column(data, d);
    DistinctMembers(col);
    FilterMembers(Distinct(col), IsTruthy);
    DistinctInFirstSeenOrder(col);
    FilterInFirstSeenOrder(Distinct(col), col, IsTruthy);
  }

  /**
   * The run-id list holds every non-empty run id exactly once, in ascending
   * string order.
   */
  lemma UploadRunIdsShape(data: seq<Record>)
    ensures NoDup(UploadOptions(data).runIds)
    ensures forall v :: v in UploadOptions(data).runIds <==> v != "" && v in Column(data, RunId)
    ensures SortedBy(UploadOptions(data).runIds, StringLe)
  {
    var raw := FirstSeenOptions(data, RunId);
    var ids := UploadOptions(data).runIds;
    FirstSeenOptionsShape(data, RunId);
    SortByPermutes(raw, StringLe);
    NoDupPermutation(ids, raw);
    forall v
      ensures v in ids <==> v in raw
    {
      assert v in ids <==> v in multiset(ids);
      assert v in raw <==> v in multiset(raw);
    }
    StringLeIsTotalPreorder();
    SortBySorted(raw, StringLe);
  }

  /**
   * Unless the file holds no run id at all, the initial run id is the least
   * run id of the file.
   */
  lemma InitialRunIdIsLeast(data: seq<Record>)
    ensures (forall i :: 0 <= i < |data| ==> data[i].runId == "") ==> UploadSelections(data).runId == ALL
    ensures forall j :: 0 <= j < |data| && data[j].runId != "" ==>
      var id := UploadSelections(data).runId;
      && id != ""
      && id in Column(data, RunId)
      && forall i :: 0 <= i < |data| && data[i].runId != "" ==> StringLe(id, data[i].runId)
  {
    var ids := UploadOptions(data).runIds;
    UploadRunIdsShape(data);
    var col := Column(data, RunId);
    if |ids| > 0 {
      forall i | 0 <= i < |data| && data[i].runId != ""
        ensures StringLe(ids[0], data[i].runId)
      {
        assert col[i] == data[i].runId;
        assert data[i].runId in col;
        assert data[i].runId in ids;
        var k :| 0 <= k < |ids| && ids[k] == data[i].runId;
        if k > 0 {
          assert StringLe(ids[0], ids[k]);
        } else {
          StringLeReflexive(ids[0]);
        }
      }
    } else {
      forall j | 0 <= j < |data|
        ensures data[j].runId == ""
      {
        assert col[j] == data[j].runId;
        assert data[j].runId !in ids;
      }
    }
  }

  /**
   * The initial run selection is determined by the file: a non-empty run id
   * of the file that is no greater than any other is the one selected.
   */
  lemma InitialRunIdIsUniqueLeast(data: seq<Record>, j: nat)
    requires j < |data| && data[j].runId != ""
    requires forall i :: 0 <= i < |data| && data[i].runId != "" ==> StringLe(data[j].runId, data[i].runId)
    ensures UploadSelections(data).runId == data[j].runId
  {
    InitialRunIdIsLeast(data);
    var id := UploadSelections(data).runId;
    var col := Column(data, RunId);
    assert id in col;
    var k :| 0 <= k < |col| && col[k] == id;
    assert data[k].runId == id;
    StringLeAntisymmetric(id, data[j].runId);
  }
}
