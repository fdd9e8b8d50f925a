/**
  Extension filtering of the input file list. A file is kept when its
  extension contains at least one of the valid extensions as an ordinal,
  case-sensitive substring; kept files stay in their input order. The
  platform's extension function is a parameter `ext`.
 */
module FileFilter {

  /** `p` is a prefix of `s`. */
  predicate StartsWith(s: string, p: string) {
    |p| <= |s| && s[..|p|] == p
  }

  /** `sub` occurs in `s` starting at position `i`. */
  predicate OccursAt(s: string, sub: string, i: int) {
    0 <= i && i + |sub| <= |s| && s[i..i + |sub|] == sub
  }

  /** Ordinal substring search: try every start position from the left. */
  function Contains(s: string, sub: string): bool
    decreases |s|
  {
    StartsWith(s, sub) || (|s| > 0 && Contains(s[1..], sub))
  }

  /** The search finds `sub` exactly when it occurs at some position of `s`. */
  lemma {:induction false} ContainsIsOccurrence(s: string, sub: string)
    ensures Contains(s, sub) <==> exists i :: OccursAt(s, sub, i)
    decreases |s|
  {
    if StartsWith(s, sub) {
      assert OccursAt(s, sub, 0);
    }
    if |s| > 0 {
      ContainsIsOccurrence(s[1..], sub);
      if Contains(s[1..], sub) {
        var i :| OccursAt(s[1..], sub, i);
        assert s[i + 1..i + 1 + |sub|] == s[1..][i..i + |sub|];
        assert OccursAt(s, sub, i + 1);
      }
      if i :| OccursAt(s, sub, i) && i > 0 {
        assert s[1..][i - 1..i - 1 + |sub|] == s[i..i + |sub|];
        assert OccursAt(s[1..], sub, i - 1);
      }
    }
    if i :| OccursAt(s, sub, i) && i == 0 {
      assert StartsWith(s, sub);
    }
  }

  /** `valid.Any(e.Contains)`: some valid extension occurs in `e`. */
  function AnyContains(valid: seq<string>, e: string): (b: bool)
    ensures b <==> exists k :: 0 <= k < |valid| && Contains(e, valid[k])
  {
    if |valid| == 0 then false
    else Contains(e, valid[0]) || AnyContains(valid[1..], e)
  }

  /** The keep test: the file's extension contains some valid extension. */
  function KeepTest(valid: seq<string>, ext: string -> string): string -> bool {
    file => AnyContains(valid, ext(file))
  }

  /**
    The kept files of `files`, in input order. It is defined by the last
    file, in step with a loop that appends to the result.
   */
  function Filtered(files: seq<string>, keep: string -> bool): (r: seq<string>)
    ensures |r| <= |files|
  {
    if |files| == 0 then []
    else
      var last := files[|files| - 1];
      Filtered(files[..|files| - 1], keep) + (if keep(last) then [last] else [])
  }

  /**
    Walk the files in order and append each one that passes `keep`; the
    others are dropped. The result is the reference list `Filtered`, whose
    order, membership, counts and length the lemmas below pin down.
   */
  method FilterBy(files: seq<string>, keep: string -> bool) returns (output: seq<string>)
    ensures output == Filtered(files, keep)
  {
    output := [];
    for n := 0 to |files|
      invariant output == Filtered(files[..n], keep)
    {
      assert files[..n + 1][..n] == files[..n];
      if keep(files[n]) {
        output := output + [files[n]];
      }
    }
    assert files[..|files|] == files;
  }

  /** `FileManager.FilterFiles`: the keep test is "the extension contains some valid extension". */
  method FilterFiles(files: seq<string>, valid: seq<string>, ext: string -> string) returns (output: seq<string>)
    ensures output == Filtered(files, KeepTest(valid, ext))
  {
    output := FilterBy(files, KeepTest(valid, ext));
  }

  /** A file is in the result exactly when it is in the input and passes the keep test. */
  lemma {:induction false} FilteredMembers(files: seq<string>, keep: string -> bool)
    ensures forall f :: f in Filtered(files, keep) <==> f in files && keep(f)
  {
    if |files| > 0 {
      var n := |files| - 1;
      FilteredMembers(files[..n], keep);
      assert files == files[..n] + [files[n]];
    }
  }

  /**
    `idx` lists, in strictly increasing order, positions in `files` of kept
    files, and `r` is the list of the files at those positions: `r` is a
    subsequence of `files` in input order.
   */
  predicate Embedding(r: seq<string>, files: seq<string>, idx: seq<int>, keep: string -> bool) {
    && |idx| == |r|
    && (forall k | 0 <= k < |idx| :: 0 <= idx[k] < |files| && r[k] == files[idx[k]] && keep(files[idx[k]]))
    && (forall k, l | 0 <= k < l < |idx| :: idx[k] < idx[l])
  }

  /** The result is a subsequence of `files`, in input order, of kept files only. */
  lemma {:induction false} FilteredIsSubsequence(files: seq<string>, keep: string -> bool)
    ensures exists idx :: Embedding(Filtered(files, keep), files, idx, keep)
  {
    var idx := KeptPositions(files, keep);
    assert Embedding(Filtered(files, keep), files, idx, keep);
  }

  /** The kept positions of `files`, ascending. */
  function KeptPositions(files: seq<string>, keep: string -> bool): (idx: seq<int>)
    ensures Embedding(Filtered(files, keep), files, idx, keep)
  {
    if |files| == 0 then []
    else
      var n := |files| - 1;
      var prev := KeptPositions(files[..n], keep);
      PositionsExtend(files, keep, Filtered(files[..n], keep), prev);
      prev + (if keep(files[n]) then [n] else [])
  }

  /** Appending the last position, when kept, extends an embedding of the prefix to the whole list. */
  lemma PositionsExtend(files: seq<string>, keep: string -> bool, p: seq<string>, prev: seq<int>)
    requires |files| > 0 && p == Filtered(files[..|files| - 1], keep)
    requires Embedding(p, files[..|files| - 1], prev, keep)
    ensures Embedding(Filtered(files, keep), files,
                      prev + (if keep(files[|files| - 1]) then [|files| - 1] else []), keep)
  {
    var n := |files| - 1;
    PrefixEmbedding(p, files, prev, keep);
    if keep(files[n]) {
      assert Filtered(files, keep) == p + [files[n]];
      LastEmbedding(p, files, prev, keep);
    } else {
      assert Filtered(files, keep) == p;
      assert prev + [] == prev;
    }
  }

  /** An embedding into all but the last file is an embedding into the whole list. */
  lemma PrefixEmbedding(p: seq<string>, files: seq<string>, prev: seq<int>, keep: string -> bool)
    requires |files| > 0 && Embedding(p, files[..|files| - 1], prev, keep)
    ensures Embedding(p, files, prev, keep)
    ensures forall k | 0 <= k < |prev| :: prev[k] < |files| - 1
  {
    forall k | 0 <= k < |prev|
      ensures files[prev[k]] == files[..|files| - 1][prev[k]]
    {
    }
  }

  /** A kept last file extends an embedding whose positions all lie before it. */
  lemma LastEmbedding(p: seq<string>, files: seq<string>, prev: seq<int>, keep: string -> bool)
    requires |files| > 0 && keep(files[|files| - 1]) && Embedding(p, files, prev, keep)
    requires forall k | 0 <= k < |prev| :: prev[k] < |files| - 1
    ensures Embedding(p + [files[|files| - 1]], files, prev + [|files| - 1], keep)
  {
  }

  /** Each file occurs in the result as often as in the input when it is kept, and not at all otherwise. */
  lemma {:induction false} FilteredCounts(files: seq<string>, keep: string -> bool)
    ensures forall f :: multiset(Filtered(files, keep))[f] == if keep(f) then multiset(files)[f] else 0
  {
    if |files| > 0 {
      var n := |files| - 1;
      FilteredCounts(files[..n], keep);
      assert files == files[..n] + [files[n]];
    }
  }

  /** The number of kept files, counted from the front. */
  function CountKept(files: seq<string>, keep: string -> bool): nat {
    if |files| == 0 then 0 else (if keep(files[0]) then 1 else 0) + CountKept(files[1..], keep)
  }

  /** The result holds exactly as many files as pass the keep test. */
  lemma {:induction false} FilteredLength(files: seq<string>, keep: string -> bool)
    ensures |Filtered(files, keep)| == CountKept(files, keep)
  {
    if |files| > 0 {
      FilteredLength(files[1..], keep);
      FilterAppend(files[..1], files[1..], keep);
      assert files == files[..1] + files[1..];
      assert files[..1][..0] == [];
    }
  }

  /** No files, or no valid extensions, leave nothing. */
  lemma {:induction false} NothingToKeep(files: seq<string>, valid: seq<string>, ext: string -> string)
    requires |files| == 0 || |valid| == 0
    ensures Filtered(files, KeepTest(valid, ext)) == []
  {
    if |files| > 0 {
      NothingToKeep(files[..|files| - 1], valid, ext);
    }
  }

  /** Filtering an already filtered list returns it unchanged. */
  lemma {:induction false} FilterIdempotent(files: seq<string>, keep: string -> bool)
    ensures Filtered(Filtered(files, keep), keep) == Filtered(files, keep)
  {
    if |files| > 0 {
      var n := |files| - 1;
      FilterIdempotent(files[..n], keep);
      FilterAppend(Filtered(files[..n], keep), if keep(files[n]) then [files[n]] else [], keep);
    }
  }

  /** Filtering distributes over concatenation. */
  lemma {:induction false} FilterAppend(a: seq<string>, b: seq<string>, keep: string -> bool)
    ensures Filtered(a + b, keep) == Filtered(a, keep) + Filtered(b, keep)
    decreases |b|
  {
    if |b| > 0 {
      var m := |b| - 1;
      FilterAppend(a, b[..m], keep);
      assert (a + b)[..|a + b| - 1] == a + b[..m];
    } else {
      assert a + b == a;
    }
  }

  /**
    The test is an ordinal, case-sensitive substring test: a `.pngx` file
    passes a `.png` entry, a `.PNG` file does not.
   */
  lemma ContainsIsCaseSensitive()
    ensures AnyContains([".png"], ".pngx")
    ensures !AnyContains([".png"], ".PNG")
  {
    assert StartsWith(".pngx", ".png");
    assert !StartsWith(".PNG", ".png") by { assert ".PNG"[1] != ".png"[1]; }
    assert !Contains("PNG", ".png");
  }

  /** An empty valid extension occurs in every extension, so it keeps every file. */
  lemma {:induction false} EmptyEntryKeepsAll(files: seq<string>, valid: seq<string>, ext: string -> string)
    requires "" in valid
    ensures Filtered(files, KeepTest(valid, ext)) == files
  {
    if |files| > 0 {
      var k :| 0 <= k < |valid| && valid[k] == "";
      assert StartsWith(ext(files[|files| - 1]), valid[k]);
      EmptyEntryKeepsAll(files[..|files| - 1], valid, ext);
    }
  }
}
