/** What `_splitList` computes from the lines of an events, methods or
    properties section: one entry per line that contains the delimiter
    "`**", in line order. */
module MemberList {
  import opened Text

  /** Backtick, asterisk, asterisk. */
  const Delim: string := "`**"

  /** The entry for one delimiter line: the line split at every delimiter,
      with element 1 stripped of its first line feed and then trimmed.
      Element 0 is the member's name and element 1 its body; any further
      elements are carried along unused. */
  function Entry(line: string): (e: seq<string>)
    requires Includes(line, Delim)
    ensures |e| == |Split(line, Delim)| >= 2
  {
    SplitCount(line, Delim);
    var parts := Split(line, Delim);
    parts[1 := Trim(ReplaceFirst(parts[1], "\n", ""))]
  }

  /** The entries of all delimiter lines of `lines`, in order. */
  function Members(lines: seq<string>): (r: seq<seq<string>>)
    ensures |r| <= |lines|
    ensures forall k :: 0 <= k < |r| ==> |r[k]| >= 2
  {
    if lines == [] then []
    else
      var last := lines[|lines| - 1];
      var init := Members(lines[..|lines| - 1]);
      if Includes(last, Delim) then init + [Entry(last)] else init
  }

  /** The positions of the delimiter lines of `lines`. */
  function HeaderIndices(lines: seq<string>): (h: seq<nat>)
    ensures forall k :: 0 <= k < |h| ==> h[k] < |lines| && Includes(lines[h[k]], Delim)
  {
    if lines == [] then []
    else
      var init := HeaderIndices(lines[..|lines| - 1]);
      assert forall k :: 0 <= k < |init| ==> lines[..|lines| - 1][init[k]] == lines[init[k]];
      if Includes(lines[|lines| - 1], Delim) then init + [|lines| - 1] else init
  }

  /** The header positions are exactly the lines that contain the delimiter,
      in increasing order. */
  lemma {:induction false} HeaderIndicesExact(lines: seq<string>)
    ensures var h := HeaderIndices(lines);
      (forall j, k :: 0 <= j < k < |h| ==> h[j] < h[k]) &&
      (forall i :: 0 <= i < |lines| ==> (Includes(lines[i], Delim) <==> i in h))
  {
    if lines != [] {
      var init := lines[..|lines| - 1];
      HeaderIndicesExact(init);
      assert forall i :: 0 <= i < |init| ==> init[i] == lines[i];
    }
  }

  /** Entry `k` of `_splitList` comes from the `k`-th delimiter line: one
      entry per such line, in input order, and no others. */
  lemma {:induction false} MembersFollowHeaders(lines: seq<string>)
    ensures |Members(lines)| == |HeaderIndices(lines)|
    ensures forall k :: 0 <= k < |HeaderIndices(lines)| ==>
      Members(lines)[k] == Entry(lines[HeaderIndices(lines)[k]])
  {
    if lines != [] {
      var init := lines[..|lines| - 1];
      MembersFollowHeaders(init);
      var h, hi := HeaderIndices(lines), HeaderIndices(init);
      var m, mi := Members(lines), Members(init);
      var last := lines[|lines| - 1];
      if Includes(last, Delim) {
        assert h == hi + [|lines| - 1];
        assert m == mi + [Entry(last)];
      } else {
        assert h == hi && m == mi;
      }
      forall k | 0 <= k < |h|
        ensures m[k] == Entry(lines[h[k]])
      {
        if k < |hi| {
          assert init[hi[k]] == lines[hi[k]];
        }
      }
    }
  }

  /** A section without delimiter lines yields no entries, and only then. */
  lemma NoHeadersNoMembers(lines: seq<string>)
    ensures Members(lines) == [] <==> forall i :: 0 <= i < |lines| ==> !Includes(lines[i], Delim)
  {
    MembersFollowHeaders(lines);
    HeaderIndicesExact(lines);
    if HeaderIndices(lines) != [] {
      assert Includes(lines[HeaderIndices(lines)[0]], Delim);
    }
  }

  /** The name is the text before the first delimiter, and the body is the
      text between the first and the second delimiter (or the end of the
      line), first line feed removed and trimmed; text after a second
      delimiter is not part of the body. */
  lemma EntryParts(line: string)
    requires Includes(line, Delim)
    ensures var e := Entry(line); var seg := Split(line, Delim)[1]; var n := |e[0]| + |Delim|;
      && !Includes(e[0], Delim) && !Includes(seg, Delim)
      && n + |seg| <= |line| && line[..n] == e[0] + Delim && line[n..n + |seg|] == seg
      && (n + |seg| == |line| || OccursAt(line, Delim, n + |seg|))
      && e[1] == Trim(ReplaceFirst(seg, "\n", ""))
      && e[2..] == Split(line, Delim)[2..]
  {
    SplitPartsClean(line, Delim);
    SplitSecond(line, Delim);
  }
}
