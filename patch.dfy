/**
  An exact, reversible edit script between two serialized snapshots. It stands
  in for the diff-match-patch library the history manager calls: a record is a
  list of hunks, each hunk a position and a list of diffs whose operation is
  -1 (delete), 0 (keep) or 1 (insert), as that library numbers them.
 */
module Patch {

  /** Operation code of a deletion. */
  const Delete: int := -1
  /** Operation code of an insertion. */
  const Insert: int := 1

  /** One diff: an operation code and the text it concerns. */
  datatype Diff = Diff(op: int, text: string)

  /** One hunk: where it applies in the text it is applied to, and its diffs. */
  datatype PatchObj = PatchObj(start: nat, diffs: seq<Diff>)

  /** A history record: the hunks of one commit, applied in order. */
  type PatchList = seq<PatchObj>

  /** The text a hunk expects to find: everything it keeps or deletes. */
  function Text1(diffs: seq<Diff>): string
  {
    if diffs == [] then ""
    else (if diffs[0].op != Insert then diffs[0].text else "") + Text1(diffs[1..])
  }

  /** The text a hunk leaves behind: everything it keeps or inserts. */
  function Text2(diffs: seq<Diff>): string
  {
    if diffs == [] then ""
    else (if diffs[0].op != Delete then diffs[0].text else "") + Text2(diffs[1..])
  }

  /** The diffs with every operation code negated: deletions become insertions and back. */
  function NegateDiffs(diffs: seq<Diff>): seq<Diff>
  {
    seq(|diffs|, k requires 0 <= k < |diffs| => Diff(-diffs[k].op, diffs[k].text))
  }

  /** Negating the codes swaps what a hunk expects with what it leaves. */
  lemma {:induction false} NegateSwapsTexts(diffs: seq<Diff>)
    ensures Text1(NegateDiffs(diffs)) == Text2(diffs)
    ensures Text2(NegateDiffs(diffs)) == Text1(diffs)
  {
    if diffs != [] {
      assert NegateDiffs(diffs)[1..] == NegateDiffs(diffs[1..]);
      NegateSwapsTexts(diffs[1..]);
    }
  }

  /** The hunk with its operation codes negated, at the same position. */
  function Negate(p: PatchObj): PatchObj
  {
    p.(diffs := NegateDiffs(p.diffs))
  }

  /** The record redo applies: the hunks in reverse order, each negated. */
  function Invert(ps: PatchList): (r: PatchList)
    ensures |r| == |ps|
  {
    if ps == [] then [] else Invert(ps[1..]) + [Negate(ps[0])]
  }

  /** Hunk `k` of the inverted record is the negation of hunk `|ps| - 1 - k`. */
  lemma {:induction false} InvertAt(ps: PatchList, k: nat)
    requires k < |ps|
    ensures Invert(ps)[k] == Negate(ps[|ps| - 1 - k])
  {
    if k < |ps| - 1 {
      InvertAt(ps[1..], k);
    }
  }

  /** The hunk finds the text it expects at its position. */
  predicate Matches(p: PatchObj, t: string)
  {
    p.start + |Text1(p.diffs)| <= |t| && t[p.start..p.start + |Text1(p.diffs)|] == Text1(p.diffs)
  }

  /** Apply one hunk; a hunk that does not match leaves the text as it is. */
  function ApplyPatch(p: PatchObj, t: string): string
  {
    if Matches(p, t) then t[..p.start] + Text2(p.diffs) + t[p.start + |Text1(p.diffs)|..]
    else t
  }

  /** Apply the hunks of a record in order (the text part of `patch_apply`). */
  function ApplyAll(ps: PatchList, t: string): string
  {
    if ps == [] then t else ApplyAll(ps[1..], ApplyPatch(ps[0], t))
  }

  /** Every hunk of the record matches when its turn comes. */
  predicate Clean(ps: PatchList, t: string)
  {
    ps == [] || (Matches(ps[0], t) && Clean(ps[1..], ApplyPatch(ps[0], t)))
  }

  /** The record applies cleanly to `from` and yields `to`. */
  predicate Restores(ps: PatchList, from: string, to: string)
  {
    Clean(ps, from) && ApplyAll(ps, from) == to
  }

  /** The negated hunk, applied after the hunk, gives back the original text. */
  lemma NegateUndoesPatch(p: PatchObj, t: string)
    requires Matches(p, t)
    ensures Matches(Negate(p), ApplyPatch(p, t))
    ensures ApplyPatch(Negate(p), ApplyPatch(p, t)) == t
  {
    NegateSwapsTexts(p.diffs);
    var u := ApplyPatch(p, t);
    var n1 := |Text1(p.diffs)|;
    var n2 := |Text2(p.diffs)|;
    assert u[..p.start] == t[..p.start];
    assert u[p.start..p.start + n2] == Text2(p.diffs);
    assert u[p.start + n2..] == t[p.start + n1..];
    assert t == t[..p.start] + t[p.start..p.start + n1] + t[p.start + n1..];
  }

  /** Applying a record with one more hunk at its end. */
  lemma {:induction false} ApplyAllSnoc(ps: PatchList, q: PatchObj, t: string)
    ensures ApplyAll(ps + [q], t) == ApplyPatch(q, ApplyAll(ps, t))
    ensures Clean(ps + [q], t) <==> Clean(ps, t) && Matches(q, ApplyAll(ps, t))
  {
    if ps != [] {
      assert (ps + [q])[1..] == ps[1..] + [q];
      ApplyAllSnoc(ps[1..], q, ApplyPatch(ps[0], t));
    }
  }

  /** A record that takes `a` to `b` has an inverse that takes `b` back to `a`. */
  lemma {:induction false} InvertRestores(ps: PatchList, a: string, b: string)
    requires Restores(ps, a, b)
    ensures Restores(Invert(ps), b, a)
  {
    if ps != [] {
      var a1 := ApplyPatch(ps[0], a);
      InvertRestores(ps[1..], a1, b);
      ApplyAllSnoc(Invert(ps[1..]), Negate(ps[0]), b);
      NegateUndoesPatch(ps[0], a);
    }
  }

  /** The first index from `i` on where `a` and `b` differ or one of them ends. */
  function PrefixFrom(a: string, b: string, i: nat): (k: nat)
    requires i <= |a| && i <= |b|
    ensures i <= k <= |a| && k <= |b|
    ensures forall j :: i <= j < k ==> a[j] == b[j]
    ensures k < |a| && k < |b| ==> a[k] != b[k]
    decreases |a| - i
  {
    if i == |a| || i == |b| || a[i] != b[i] then i else PrefixFrom(a, b, i + 1)
  }

  /** Length of the longest common prefix of `a` and `b`. */
  function CommonPrefix(a: string, b: string): (k: nat)
    ensures k <= |a| && k <= |b|
    ensures forall j :: 0 <= j < k ==> a[j] == b[j]
    ensures k < |a| && k < |b| ==> a[k] != b[k]
  {
    PrefixFrom(a, b, 0)
  }

  /** The characters `j` places before the ends of `a` and `b` exist and are equal. */
  predicate EndsAgree(a: string, b: string, j: nat)
  {
    j < |a| && j < |b| && a[|a| - 1 - j] == b[|b| - 1 - j]
  }

  /** How many final characters `a` and `b` share, counting on from `n` and stopping at `limit`. */
  function SuffixFrom(a: string, b: string, n: nat, limit: nat): (m: nat)
    requires n <= limit <= |a| && limit <= |b|
    ensures n <= m <= limit
    ensures forall j :: n <= j < m ==> EndsAgree(a, b, j)
    ensures m < limit ==> !EndsAgree(a, b, m)
    decreases limit - n
  {
    if n == limit || a[|a| - 1 - n] != b[|b| - 1 - n] then n
    else SuffixFrom(a, b, n + 1, limit)
  }

  /** Length of the longest common suffix of `a` and `b` that is at most `limit` long. */
  function CommonSuffix(a: string, b: string, limit: nat): (m: nat)
    requires limit <= |a| && limit <= |b|
    ensures m <= limit
    ensures forall j :: 0 <= j < m ==> EndsAgree(a, b, j)
    ensures m < limit ==> !EndsAgree(a, b, m)
  {
    SuffixFrom(a, b, 0, limit)
  }

  /** Texts equal on their first `k` and last `m` characters have equal prefix and suffix slices. */
  lemma SameEnds(text: string, target: string, k: nat, m: nat)
    requires k + m <= |text| && k + m <= |target|
    requires forall j :: 0 <= j < k ==> text[j] == target[j]
    requires forall j :: 0 <= j < m ==> EndsAgree(text, target, j)
    ensures text[..k] == target[..k]
    ensures text[|text| - m..] == target[|target| - m..]
  {
    var ts, gs := text[|text| - m..], target[|target| - m..];
    forall i | 0 <= i < m
      ensures ts[i] == gs[i]
    {
      assert EndsAgree(text, target, m - 1 - i);
    }
  }

  /** The diffs of a hunk that deletes `removed` and inserts `inserted`; empty parts are left out. */
  function Replacement(removed: string, inserted: string): seq<Diff>
  {
    (if removed == "" then [] else [Diff(Delete, removed)])
    + (if inserted == "" then [] else [Diff(Insert, inserted)])
  }

  /** A replacement hunk expects the removed text and leaves the inserted one. */
  lemma ReplacementTexts(removed: string, inserted: string)
    ensures Text1(Replacement(removed, inserted)) == removed
    ensures Text2(Replacement(removed, inserted)) == inserted
  {
    var ins: seq<Diff> := if inserted == "" then [] else [Diff(Insert, inserted)];
    assert Text1(ins) == "" && Text2(ins) == inserted by {
      if inserted != "" {
        assert ins[1..] == [];
      }
    }
    if removed != "" {
      assert Replacement(removed, inserted)[1..] == ins;
    }
  }

  /** The one hunk between two different texts: it replaces what lies between their common prefix and suffix. */
  function MakeHunk(text: string, target: string): (p: PatchObj)
  {
    var k := CommonPrefix(text, target);
    var m := CommonSuffix(text, target, (if |text| < |target| then |text| else |target|) - k);
    PatchObj(k, Replacement(text[k..|text| - m], target[k..|target| - m]))
  }

  /**
    The record taking `text` to `target` (`diff_main` followed by `patch_make`):
    no hunk when the texts are equal, otherwise one hunk that deletes the part
    of `text` between the common prefix and the common suffix and inserts the
    corresponding part of `target`.
   */
  function Make(text: string, target: string): (r: PatchList)
    ensures r == [] <==> text == target
    ensures |r| <= 1
  {
    if text == target then [] else [MakeHunk(text, target)]
  }

  /**
    Two texts that share the prefix before `k` and the suffixes from `j1` and
    `j2` are taken one to the other by the hunk replacing what lies between.
   */
  lemma ReplacementRestores(text: string, target: string, k: nat, j1: nat, j2: nat)
    requires k <= j1 <= |text| && k <= j2 <= |target|
    requires text[..k] == target[..k] && text[j1..] == target[j2..]
    ensures Matches(PatchObj(k, Replacement(text[k..j1], target[k..j2])), text)
    ensures ApplyPatch(PatchObj(k, Replacement(text[k..j1], target[k..j2])), text) == target
  {
    ReplacementTexts(text[k..j1], target[k..j2]);
    assert target == target[..k] + target[k..j2] + target[j2..];
  }

  /** The hunk between two texts replaces a middle part; the parts around it are common to both. */
  lemma HunkShape(text: string, target: string) returns (k: nat, j1: nat, j2: nat)
    ensures k <= j1 <= |text| && k <= j2 <= |target|
    ensures text[..k] == target[..k] && text[j1..] == target[j2..]
    ensures MakeHunk(text, target) == PatchObj(k, Replacement(text[k..j1], target[k..j2]))
  {
    k := CommonPrefix(text, target);
    var m := CommonSuffix(text, target, (if |text| < |target| then |text| else |target|) - k);
    SameEnds(text, target, k, m);
    j1, j2 := |text| - m, |target| - m;
  }

  /** The hunk between two texts takes the first to the second. */
  lemma MakeHunkRestores(text: string, target: string)
    ensures Matches(MakeHunk(text, target), text)
    ensures ApplyPatch(MakeHunk(text, target), text) == target
  {
    var k, j1, j2 := HunkShape(text, target);
    ReplacementRestores(text, target, k, j1, j2);
  }

  /** Round trip: the record made from `text` to `target` takes `text` to `target`. */
  lemma MakeRestores(text: string, target: string)
    ensures Restores(Make(text, target), text, target)
  {
    if text != target {
      MakeHunkRestores(text, target);
      assert Make(text, target)[1..] == [];
    }
  }

  /** Round trip back: the inverse of that record takes `target` back to `text`. */
  lemma MakeInvertRestores(text: string, target: string)
    ensures Restores(Invert(Make(text, target)), target, text)
  {
    MakeRestores(text, target);
    InvertRestores(Make(text, target), text, target);
  }

  /** The record from a non-empty text to the empty one deletes it all in one diff. */
  lemma MakeToEmpty(text: string)
    requires text != ""
    ensures Make(text, "") == [PatchObj(0, [Diff(Delete, text)])]
  {
    assert CommonPrefix(text, "") == 0;
    assert CommonSuffix(text, "", 0) == 0;
    assert text[0..|text|] == text;
    assert Replacement(text, "") == [Diff(Delete, text)];
  }
}
