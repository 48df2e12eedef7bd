/** `stripReaderComments`: removal of the "When this feature ships" notice,
    the regular expression `\*\*When this feature ships[^*]*\*\*` applied
    without the global flag, so at most its leftmost match is removed. */
module ReaderComments {
  import opened Text

  const NoticeStart: string := "**When this feature ships"

  /** `t` is a whole match of the notice pattern: the opening phrase, a run
      of characters other than `*`, then `**`. */
  ghost predicate IsNotice(t: string)
  {
    |NoticeStart| + 2 <= |t| && t[..|NoticeStart|] == NoticeStart && t[|t| - 2..] == "**" &&
    forall k :: |NoticeStart| <= k < |t| - 2 ==> t[k] != '*'
  }

  /** No slice of `s` matches the notice pattern. */
  ghost predicate NoNotice(s: string)
  {
    forall p, e :: 0 <= p <= e <= |s| ==> !IsNotice(s[p..e])
  }

  /** `s[p..e]` is the match the regular expression finds: it starts at the
      smallest position where any match starts. */
  ghost predicate LeftmostNotice(s: string, p: nat, e: nat)
  {
    p <= e <= |s| && IsNotice(s[p..e]) &&
    forall p', e' :: 0 <= p' < p && p' <= e' <= |s| ==> !IsNotice(s[p'..e'])
  }

  /** Length of the greedy `[^*]*` run at the start of `s`. */
  function NonStarRun(s: string): (n: nat)
    ensures n <= |s|
    ensures forall k :: 0 <= k < n ==> s[k] != '*'
    ensures n < |s| ==> s[n] == '*'
  {
    if s == [] || s[0] == '*' then 0 else 1 + NonStarRun(s[1..])
  }

  /** The end of the match that starts at `p`, if one starts there. */
  function MatchAt(s: string, p: nat): (r: Option<nat>)
    requires p <= |s|
    ensures r.Some? ==> p < r.value <= |s| && IsNotice(s[p..r.value])
  {
    if OccursAt(s, NoticeStart, p) then
      var q := p + |NoticeStart|;
      var e := q + NonStarRun(s[q..]);
      if OccursAt(s, "**", e) then
        assert s[p..e + 2][..|NoticeStart|] == s[p..q];
        assert s[p..e + 2][e + 2 - p - 2..] == s[e..e + 2];
        Some(e + 2)
      else None
    else None
  }

  /** Backtracking cannot find a second match at the same start: a notice
      starting at `p` is exactly the one `MatchAt` finds. */
  lemma MatchAtComplete(s: string, p: nat, e: nat)
    requires p <= e <= |s| && IsNotice(s[p..e])
    ensures MatchAt(s, p) == Some(e)
  {
    NoticeOpens(s, p, e);
    NoticeRun(s, p, e);
    NoticeCloses(s, p, e);
  }

  lemma NoticeOpens(s: string, p: nat, e: nat)
    requires p <= e <= |s| && IsNotice(s[p..e])
    ensures OccursAt(s, NoticeStart, p)
  {
    assert s[p..p + |NoticeStart|] == s[p..e][..|NoticeStart|];
  }

  lemma NoticeRun(s: string, p: nat, e: nat)
    requires p <= e <= |s| && IsNotice(s[p..e])
    ensures NonStarRun(s[p + |NoticeStart|..]) == e - 2 - p - |NoticeStart|
  {
    var t := s[p..e];
    var q := p + |NoticeStart|;
    forall k | 0 <= k < e - 2 - q
      ensures s[q..][k] != '*'
    {
      assert s[q..][k] == t[|NoticeStart| + k];
    }
    assert s[q..][e - 2 - q] == t[|t| - 2];
  }

  lemma NoticeCloses(s: string, p: nat, e: nat)
    requires p <= e <= |s| && IsNotice(s[p..e])
    ensures OccursAt(s, "**", e - 2)
  {
    assert s[e - 2..e] == s[p..e][e - p - 2..];
  }

  /** The leftmost position at or after `from` where a match starts. */
  function FindNotice(s: string, from: nat): (r: Option<(nat, nat)>)
    requires from <= |s|
    ensures r.Some? ==> from <= r.value.0 <= |s| && MatchAt(s, r.value.0) == Some(r.value.1)
    ensures forall p :: from <= p <= |s| && (r.None? || p < r.value.0) ==> MatchAt(s, p).None?
    decreases |s| - from
  {
    match MatchAt(s, from)
    case Some(e) => Some((from, e))
    case None => if from == |s| then None else FindNotice(s, from + 1)
  }

  lemma NoMatchBefore(s: string, bound: nat)
    requires bound <= |s| + 1
    requires forall p :: 0 <= p < bound ==> MatchAt(s, p).None?
    ensures forall p, e :: 0 <= p < bound && p <= e <= |s| ==> !IsNotice(s[p..e])
  {
    forall p, e | 0 <= p < bound && p <= e <= |s| && IsNotice(s[p..e])
      ensures false
    {
      MatchAtComplete(s, p, e);
    }
  }

  /** `stripReaderComments`: the leftmost notice is cut out and the text on
      either side of it kept as it is; text without a notice is unchanged. */
  function StripReaderComments(content: string): (r: string)
    ensures r == content <==> NoNotice(content)
    ensures !NoNotice(content) ==>
      exists p: nat, e: nat :: LeftmostNotice(content, p, e) && r == content[..p] + content[e..]
  {
    match FindNotice(content, 0)
    case None =>
      NoMatchBefore(content, |content| + 1);
      content
    case Some((p, e)) =>
      NoMatchBefore(content, p);
      assert LeftmostNotice(content, p, e);
      assert |content[..p] + content[e..]| < |content|;
      content[..p] + content[e..]
  }
}
