/**
 * The column heuristics of `parse_and_rank_table` (ranking_scrapper.py):
 * each role takes the first header, left to right, whose lower-cased label
 * matches that role's test. The team role always resolves, falling back to the
 * first column; the points, won and nrr roles may stay unmapped.
 */
module ColumnMapper {
  import opened Wrappers

  /** Python's `sub in s` on strings: sub occurs in s as a contiguous piece. */
  predicate Contains(s: string, sub: string)
  {
    sub <= s || (s != [] && Contains(s[1..], sub))
  }

  predicate OccursAt(s: string, sub: string, i: int)
  {
    0 <= i && i + |sub| <= |s| && s[i..i + |sub|] == sub
  }

  /** `Contains` agrees with the positional definition of a substring. */
  lemma {:induction false} ContainsIff(s: string, sub: string)
    ensures Contains(s, sub) <==> exists i :: OccursAt(s, sub, i)
  {
    if sub <= s {
      assert s[0..|sub|] == sub;
      assert OccursAt(s, sub, 0);
    } else if s == [] {
      assert forall i :: !OccursAt(s, sub, i);
    } else {
      ContainsIff(s[1..], sub);
      if Contains(s[1..], sub) {
        var i :| OccursAt(s[1..], sub, i);
        assert s[i + 1..i + 1 + |sub|] == s[1..][i..i + |sub|];
        assert OccursAt(s, sub, i + 1);
      }
      if i :| OccursAt(s, sub, i) {
        assert i != 0;
        assert s[1..][i - 1..i - 1 + |sub|] == s[i..i + |sub|];
        assert OccursAt(s[1..], sub, i - 1);
      }
    }
  }

  /** "team" or "club" in the label. */
  predicate IsTeamHeader(h: string) { Contains(h, "team") || Contains(h, "club") }

  /** "point" in the label, or the label is exactly "p" or "pt". */
  predicate IsPointsHeader(h: string) { Contains(h, "point") || h == "p" || h == "pt" }

  /** "won" in the label. */
  predicate IsWonHeader(h: string) { Contains(h, "won") }

  /** "nrr" in the label. */
  predicate IsNrrHeader(h: string) { Contains(h, "nrr") }

  /** name is the leftmost header that satisfies p. */
  ghost predicate IsFirstMatch(hs: seq<string>, p: string -> bool, name: string)
  {
    exists i :: 0 <= i < |hs| && hs[i] == name && p(hs[i]) && forall j :: 0 <= j < i ==> !p(hs[j])
  }

  ghost predicate NoMatch(hs: seq<string>, p: string -> bool)
  {
    forall j :: 0 <= j < |hs| ==> !p(hs[j])
  }

  /** Python's `next((c for c in hs if p(c)), None)`. */
  function FirstMatch(hs: seq<string>, p: string -> bool): (r: Option<string>)
    ensures r.Some? ==> IsFirstMatch(hs, p, r.value)
    ensures r.None? <==> NoMatch(hs, p)
  {
    if hs == [] then None
    else if p(hs[0]) then Some(hs[0])
    else
      var rest := FirstMatch(hs[1..], p);
      assert rest.Some? ==> IsFirstMatch(hs, p, rest.value) by {
        if rest.Some? {
          var i :| 0 <= i < |hs| - 1 && hs[1..][i] == rest.value && p(hs[1..][i])
                   && forall j :: 0 <= j < i ==> !p(hs[1..][j]);
          assert forall j :: 0 <= j < i + 1 ==> !p(hs[j]) by {
            forall j | 0 <= j < i + 1 ensures !p(hs[j]) {
              if j > 0 { assert hs[j] == hs[1..][j - 1]; }
            }
          }
          assert hs[i + 1] == rest.value;
        }
      }
      assert NoMatch(hs[1..], p) ==> NoMatch(hs, p) by {
        if NoMatch(hs[1..], p) {
          forall j | 0 <= j < |hs| ensures !p(hs[j]) {
            if j > 0 { assert hs[j] == hs[1..][j - 1]; }
          }
        }
      }
      rest
  }

  /** The header chosen for each role; `None` is an unmapped role. */
  datatype ColumnMap = ColumnMap(team: string, points: Option<string>, won: Option<string>, nrr: Option<string>)

  /**
   * The four `next(...)` look-ups of ranking_scrapper.py, lines 50 to 53, over
   * the frame's column labels; `headers[0]` is `df.columns[0]`.
   */
  function SelectColumns(headers: seq<string>): (m: ColumnMap)
    requires |headers| > 0
    ensures IsFirstMatch(headers, IsTeamHeader, m.team)
            || (NoMatch(headers, IsTeamHeader) && m.team == headers[0])
    ensures m.points.Some? ==> IsFirstMatch(headers, IsPointsHeader, m.points.value)
    ensures m.points.None? <==> NoMatch(headers, IsPointsHeader)
    ensures m.won.Some? ==> IsFirstMatch(headers, IsWonHeader, m.won.value)
    ensures m.won.None? <==> NoMatch(headers, IsWonHeader)
    ensures m.nrr.Some? ==> IsFirstMatch(headers, IsNrrHeader, m.nrr.value)
    ensures m.nrr.None? <==> NoMatch(headers, IsNrrHeader)
  {
    var team := match FirstMatch(headers, IsTeamHeader)
      case Some(c) => c
      case None => headers[0];
    ColumnMap(team, FirstMatch(headers, IsPointsHeader), FirstMatch(headers, IsWonHeader),
              FirstMatch(headers, IsNrrHeader))
  }

  /** Every role that resolves names one of the headers. */
  lemma SelectedColumnsAreHeaders(headers: seq<string>)
    requires |headers| > 0
    ensures var m := SelectColumns(headers);
      && m.team in headers
      && (m.points.Some? ==> m.points.value in headers)
      && (m.won.Some? ==> m.won.value in headers)
      && (m.nrr.Some? ==> m.nrr.value in headers)
  {
  }

  /**
   * The column labels of the frame built from the row dictionaries: the
   * headers without repeats, each where it first occurs.
   */
  function Columns(headers: seq<string>): (cols: seq<string>)
    ensures forall c :: c in cols <==> c in headers
    ensures headers != [] ==> cols != [] && cols[0] == headers[0]
    ensures forall i, j :: 0 <= i < j < |cols| ==> cols[i] != cols[j]
  {
    if headers == [] then []
    else
      var cols := Columns(headers[..|headers| - 1]);
      var last := headers[|headers| - 1];
      assert headers == headers[..|headers| - 1] + [last];
      if last in cols then cols else cols + [last]
  }

  lemma {:induction false} FirstMatchAppend(hs: seq<string>, x: string, p: string -> bool)
    ensures FirstMatch(hs + [x], p)
            == if FirstMatch(hs, p).Some? then FirstMatch(hs, p) else if p(x) then Some(x) else None
  {
    if hs != [] {
      assert (hs + [x])[1..] == hs[1..] + [x];
      FirstMatchAppend(hs[1..], x, p);
    }
  }

  /**
   * Scanning the frame's columns (`df.columns`) picks the same header as
   * scanning the header row, so repeated labels do not change any role.
   */
  lemma {:induction false} FirstMatchOfColumns(headers: seq<string>, p: string -> bool)
    ensures FirstMatch(Columns(headers), p) == FirstMatch(headers, p)
  {
    if headers != [] {
      var init := headers[..|headers| - 1];
      var last := headers[|headers| - 1];
      var cols := Columns(init);
      assert headers == init + [last];
      FirstMatchOfColumns(init, p);
      FirstMatchAppend(init, last, p);
      if last !in cols {
        FirstMatchAppend(cols, last, p);
      } else if FirstMatch(init, p).None? {
        assert last in init;
      }
    }
  }
}
