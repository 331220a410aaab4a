/**
 * The length budget of full mode: commentary paragraphs are offered one at a time, in
 * document order, and each is appended to the message items only if the message would stay
 * below 4000 characters, measured against the items accepted so far. A paragraph that does
 * not fit is skipped and never counts against the ones after it.
 */
module Budget {
  import opened Strings
  import opened Sequences

  /** The message text must stay strictly below this many characters. */
  const Ceiling: nat := 4000

  /** Items are joined with a blank line. */
  const Blank: string := "\n\n"

  /**
   * The admission test: the candidate with a blank line after it, plus the items accepted so
   * far joined with blank lines, is shorter than the ceiling.
   */
  predicate Fits(items: seq<string>, t: string)
  {
    |t + Blank| + |Join(items, Blank)| < Ceiling
  }

  /**
   * The items after offering every candidate in turn. The result is the original items
   * followed by a selection of the candidates in their original order.
   */
  function Admit(items: seq<string>, candidates: seq<string>): (r: seq<string>)
    ensures |r| >= |items| && r[..|items|] == items
    ensures IsSubseq(r[|items|..], candidates)
    decreases |candidates|
  {
    if candidates == [] then items
    else
      var c := candidates[0];
      var next := if Fits(items, c) then items + [c] else items;
      var r := Admit(next, candidates[1..]);
      assert r[..|items|] == next[..|items|];
      if Fits(items, c) then
        assert r[|items|..] == [c] + r[|next|..];
        r
      else
        SubseqCons(r[|items|..], candidates[1..], c);
        assert [c] + candidates[1..] == candidates;
        r
  }

  /** Offering candidates in two batches is offering them all at once. */
  lemma {:induction false} AdmitAppend(items: seq<string>, a: seq<string>, b: seq<string>)
    ensures Admit(items, a + b) == Admit(Admit(items, a), b)
    decreases |a|
  {
    if a == [] {
      assert a + b == b;
    } else {
      assert (a + b)[0] == a[0] && (a + b)[1..] == a[1..] + b;
      var next := if Fits(items, a[0]) then items + [a[0]] else items;
      AdmitAppend(next, a[1..], b);
    }
  }

  /**
   * The decision for each paragraph is taken against the items accepted before it: it is
   * appended exactly when it fits those, and otherwise the items stay as they were.
   */
  lemma AdmitLast(items: seq<string>, cs: seq<string>, c: string)
    ensures Admit(items, cs + [c])
         == if Fits(Admit(items, cs), c) then Admit(items, cs) + [c] else Admit(items, cs)
  {
    AdmitAppend(items, cs, [c]);
  }

  /** A paragraph that does not fit leaves the outcome for all later paragraphs unchanged. */
  lemma RejectedDoesNotBlock(items: seq<string>, before: seq<string>, c: string, after: seq<string>)
    requires !Fits(Admit(items, before), c)
    ensures Admit(items, before + [c] + after) == Admit(items, before + after)
  {
    AdmitAppend(items, before + [c], after);
    AdmitAppend(items, before, [c]);
    AdmitAppend(items, before, after);
  }

  /** Appending one item adds the separator and the item to the joined length (just the item when there was none). */
  lemma JoinedLengthSnoc(items: seq<string>, t: string)
    ensures |Join(items + [t], Blank)| == |Join(items, Blank)| + (if items == [] then 0 else |Blank|) + |t|
  {
    if items != [] {
      JoinSnoc(items, t, Blank);
    } else {
      assert items + [t] == [t];
    }
  }

  /** Once any paragraph has been accepted, the joined message is below the ceiling. */
  lemma {:induction false} AdmitBound(items: seq<string>, candidates: seq<string>)
    ensures |Admit(items, candidates)| > |items| ==> |Join(Admit(items, candidates), Blank)| < Ceiling
    decreases |candidates|
  {
    if candidates != [] {
      var c := candidates[0];
      var next := if Fits(items, c) then items + [c] else items;
      var r := Admit(next, candidates[1..]);
      if |r| > |next| {
        AdmitBound(next, candidates[1..]);
      } else if Fits(items, c) {
        assert r == r[..|next|] == next;
        JoinedLengthSnoc(items, c);
      }
    }
  }

  /**
   * The paragraph loop as the service runs it, keeping the joined length in a running
   * counter instead of joining the items again for every paragraph.
   */
  method AdmitLoop(items: seq<string>, candidates: seq<string>) returns (r: seq<string>)
    ensures r == Admit(items, candidates)
  {
    r := items;
    var len := |Join(items, Blank)|;
    var i := 0;
    while i < |candidates|
      invariant 0 <= i <= |candidates|
      invariant r == Admit(items, candidates[..i])
      invariant len == |Join(r, Blank)|
    {
      var t := candidates[i];
      AdmitLast(items, candidates[..i], t);
      assert candidates[..i + 1] == candidates[..i] + [t];
      if |t| + |Blank| + len < Ceiling {
        JoinedLengthSnoc(r, t);
        len := len + (if r == [] then 0 else |Blank|) + |t|;
        r := r + [t];
      }
      i := i + 1;
    }
    assert candidates[..i] == candidates;
  }

  /**
   * With a base of 100 characters and paragraphs of 100, 3950 and 200 characters, the first
   * is accepted (202 < 4000), the second is refused (4154), and the third is accepted because it
   * is measured against the 202 accepted characters only (404).
   */
  lemma SkipExample(base: string, p1: string, p2: string, p3: string)
    requires |base| == 100 && |p1| == 100 && |p2| == 3950 && |p3| == 200
    ensures Admit([base], [p1, p2, p3]) == [base, p1, p3]
  {
    assert |Join([base], Blank)| == 100;
    assert Fits([base], p1);
    assert [base] + [p1] == [base, p1];
    assert [p1, p2, p3][1..] == [p2, p3];
    assert Admit([base], [p1, p2, p3]) == Admit([base, p1], [p2, p3]);
    JoinedLengthSnoc([base], p1);
    assert |Join([base, p1], Blank)| == 202;
    assert !Fits([base, p1], p2);
    assert [p2, p3][1..] == [p3];
    assert Admit([base, p1], [p2, p3]) == Admit([base, p1], [p3]);
    assert Fits([base, p1], p3);
    assert [base, p1] + [p3] == [base, p1, p3];
    assert Admit([base, p1], [p3]) == Admit([base, p1, p3], []);
  }
}
