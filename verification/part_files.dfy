/**
  Splitting a file into numbered part files and joining them back
  (`split_file` and `join_chunks` of the file manager).
 */
module PartFiles {
  import opened Chunks

  /** `os.path.basename` on POSIX: everything after the last '/'. */
  function Basename(path: string): (b: string)
    ensures '/' !in b
    ensures |b| <= |path| && b == path[|path| - |b|..]
    ensures |b| < |path| ==> path[|path| - |b| - 1] == '/'
    decreases |path|
  {
    if |path| == 0 || path[|path| - 1] == '/' then []
    else Basename(path[..|path| - 1]) + [path[|path| - 1]]
  }

  function Digit(d: nat): char
    requires d < 10
  {
    (d + 48) as char
  }

  /** The value of a decimal digit character. */
  function DigitValue(c: char): int {
    c as int - 48
  }

  /** The number a text of decimal digits denotes, read left to right as `int(s)` does. */
  function Value(s: string): int
    decreases |s|
  {
    if |s| == 0 then 0 else Value(s[..|s| - 1]) * 10 + DigitValue(s[|s| - 1])
  }

  /** The decimal text `f"{n}"`: digits only, no leading zero, denoting n. */
  function Decimal(n: nat): (s: string)
    ensures |s| >= 1
    ensures |s| == 1 <==> n < 10
    ensures forall i :: 0 <= i < |s| ==> '0' <= s[i] <= '9'
    ensures |s| > 1 ==> s[0] != '0'
    ensures Value(s) == n
    decreases n
  {
    if n < 10 then
      assert [Digit(n)][..0] == [];
      [Digit(n)]
    else
      var t := Decimal(n / 10);
      var s := t + [Digit(n % 10)];
      assert s[..|t|] == t && s[0] == t[0];
      assert |t| == 1 ==> t[..0] == [] && DigitValue(t[0]) == n / 10;
      s
  }

  /** Different numbers have different decimal texts. */
  lemma DecimalInjective(a: nat, b: nat)
    requires Decimal(a) == Decimal(b)
    ensures a == b
  {
    assert Value(Decimal(a)) == a && Value(Decimal(b)) == b;
  }

  /** The name of part `i`: `f"{filename}.part{i}"`. */
  function PartName(base: string, i: nat): string {
    base + ".part" + Decimal(i)
  }

  lemma PartNameInjective(base: string, i: nat, j: nat)
    requires PartName(base, i) == PartName(base, j)
    ensures i == j
  {
    var k := |base| + 5;
    assert PartName(base, i)[k..] == Decimal(i);
    assert PartName(base, j)[k..] == Decimal(j);
    DecimalInjective(i, j);
  }

  /** The list of part names `split_file` returns and the output directory it leaves. */
  datatype Split = Split(names: seq<string>, dir: Dir)

  /** Write parts k.. in order, each under its own name. */
  function WriteParts(base: string, parts: seq<Bytes>, k: nat, dir: Dir): (r: Split)
    requires k <= |parts|
    ensures |r.names| == |parts| - k
    ensures forall j :: 0 <= j < |r.names| ==> r.names[j] == PartName(base, k + j)
    ensures forall j :: 0 <= j < |r.names| ==> r.names[j] in r.dir && r.dir[r.names[j]] == parts[k + j]
    ensures forall n :: n in dir && n !in r.names ==> n in r.dir && r.dir[n] == dir[n]
    decreases |parts| - k
  {
    if k == |parts| then Split([], dir)
    else
      var first := PartName(base, k);
      var rest := WriteParts(base, parts, k + 1, dir[first := parts[k]]);
      WritePartsCons(base, parts, k, dir, rest);
      Split([first] + rest.names, rest.dir)
  }

  /** Part k written before parts k+1.. survives them, and its name leads theirs. */
  lemma WritePartsCons(base: string, parts: seq<Bytes>, k: nat, dir: Dir, rest: Split)
    requires k < |parts|
    requires |rest.names| == |parts| - (k + 1)
    requires forall j :: 0 <= j < |rest.names| ==> rest.names[j] == PartName(base, k + 1 + j)
    requires forall j :: 0 <= j < |rest.names| ==> rest.names[j] in rest.dir && rest.dir[rest.names[j]] == parts[k + 1 + j]
    requires forall n :: n in dir[PartName(base, k) := parts[k]] && n !in rest.names ==>
      n in rest.dir && rest.dir[n] == dir[PartName(base, k) := parts[k]][n]
    ensures var names := [PartName(base, k)] + rest.names;
      |names| == |parts| - k
      && (forall j :: 0 <= j < |names| ==> names[j] == PartName(base, k + j))
      && (forall j :: 0 <= j < |names| ==> names[j] in rest.dir && rest.dir[names[j]] == parts[k + j])
      && (forall n :: n in dir && n !in names ==> n in rest.dir && rest.dir[n] == dir[n])
  {
    var first := PartName(base, k);
    LaterNamesDiffer(base, rest.names, k);
    assert rest.dir[first] == parts[k];
    ConsNumbered(base, k, rest.names);
    var names := [first] + rest.names;
    assert forall j :: 1 <= j < |names| ==> names[j] == rest.names[j - 1];
  }

  /** Prepending the name numbered k to names numbered from k + 1 gives names numbered from k. */
  lemma ConsNumbered(base: string, k: nat, names: seq<string>)
    requires forall j :: 0 <= j < |names| ==> names[j] == PartName(base, k + 1 + j)
    ensures forall j :: 0 <= j < |names| + 1 ==> ([PartName(base, k)] + names)[j] == PartName(base, k + j)
  {
    forall j | 0 <= j < |names| + 1
      ensures ([PartName(base, k)] + names)[j] == PartName(base, k + j)
    {
      if j > 0 {
        assert ([PartName(base, k)] + names)[j] == names[j - 1];
      }
    }
  }

  /** Names numbered from k + 1 on never repeat the name numbered k. */
  lemma LaterNamesDiffer(base: string, names: seq<string>, k: nat)
    requires forall j :: 0 <= j < |names| ==> names[j] == PartName(base, k + 1 + j)
    ensures PartName(base, k) !in names
  {
    forall j | 0 <= j < |names|
      ensures names[j] != PartName(base, k)
    {
      if names[j] == PartName(base, k) {
        PartNameInjective(base, k + 1 + j, k);
      }
    }
  }

  /** `split_file(filepath, output_dir)` over the file's bytes and the output directory. */
  function SplitFile(path: string, data: Bytes, out: Dir): (r: Split)
    ensures |r.names| == ChunkCount(|data|)
    ensures forall i :: 0 <= i < |r.names| ==> r.names[i] == PartName(Basename(path), i)
    ensures forall i :: 0 <= i < |r.names| ==> r.names[i] in r.dir && r.dir[r.names[i]] == ChunkAt(data, i)
    ensures forall n :: n in out && n !in r.names ==> n in r.dir && r.dir[n] == out[n]
  {
    PartsAreChunks(data);
    WriteParts(Basename(path), Parts(data), 0, out)
  }

  /** Every listed name exists in the directory. */
  predicate AllPresent(names: seq<string>, dir: Dir) {
    forall j :: 0 <= j < |names| ==> names[j] in dir
  }

  /** No listed name exists in the directory. */
  predicate NonePresent(names: seq<string>, dir: Dir) {
    forall j :: 0 <= j < |names| ==> names[j] !in dir
  }

  /** The contents of names that are all present, in list order. */
  function Contents(names: seq<string>, dir: Dir): (parts: seq<Bytes>)
    requires AllPresent(names, dir)
    ensures |parts| == |names| && forall j :: 0 <= j < |names| ==> parts[j] == dir[names[j]]
  {
    seq(|names|, j requires 0 <= j < |names| => dir[names[j]])
  }

  /**
    `join_chunks`: the contents of the listed parts that exist, in list order. With
    every name present it is their contents back to back; with none, the empty file.
   */
  function Join(names: seq<string>, dir: Dir): (out: Bytes)
    ensures AllPresent(names, dir) ==> out == Flatten(Contents(names, dir))
    ensures NonePresent(names, dir) ==> out == []
    decreases |names|
  {
    if |names| == 0 then []
    else
      ContentsFirst(names, dir);
      (if names[0] in dir then dir[names[0]] else []) + Join(names[1..], dir)
  }

  lemma ContentsFirst(names: seq<string>, dir: Dir)
    requires |names| > 0
    ensures AllPresent(names, dir) ==> AllPresent(names[1..], dir)
    ensures NonePresent(names, dir) ==> NonePresent(names[1..], dir)
    ensures AllPresent(names, dir) ==> Contents(names, dir) == [dir[names[0]]] + Contents(names[1..], dir)
  {
    if AllPresent(names, dir) {
      assert Contents(names, dir) == [dir[names[0]]] + Contents(names[1..], dir);
    }
  }

  lemma {:induction false} JoinAppend(a: seq<string>, b: seq<string>, dir: Dir)
    ensures Join(a + b, dir) == Join(a, dir) + Join(b, dir)
    decreases |a|
  {
    if |a| > 0 {
      assert (a + b)[1..] == a[1..] + b;
      JoinAppend(a[1..], b, dir);
    } else {
      assert a + b == b;
    }
  }

  /** When every listed name holds the matching part, joining writes the parts back to back. */
  lemma {:induction false} JoinPresent(names: seq<string>, dir: Dir, parts: seq<Bytes>)
    requires |names| == |parts|
    requires forall j :: 0 <= j < |names| ==> names[j] in dir && dir[names[j]] == parts[j]
    ensures Join(names, dir) == Flatten(parts)
    decreases |names|
  {
    if |names| > 0 {
      JoinPresent(names[1..], dir, parts[1..]);
    }
  }

  /** Joining the names a split returns, from its output directory, gives back the file. */
  lemma SplitJoinRoundTrip(path: string, data: Bytes, out: Dir)
    ensures var s := SplitFile(path, data, out); Join(s.names, s.dir) == data
  {
    var s := SplitFile(path, data, out);
    PartsAreChunks(data);
    JoinPresent(s.names, s.dir, Parts(data));
    PartsFlatten(data);
  }

  predicate Distinct(names: seq<string>) {
    forall i, j :: 0 <= i < j < |names| ==> names[i] != names[j]
  }

  /** Part names are pairwise different, so no part overwrites another. */
  lemma SplitNamesDistinct(path: string, data: Bytes, out: Dir)
    ensures Distinct(SplitFile(path, data, out).names)
  {
    var names := SplitFile(path, data, out).names;
    forall i, j | 0 <= i < j < |names|
      ensures names[i] != names[j]
    {
      if names[i] == names[j] {
        PartNameInjective(Basename(path), i, j);
      }
    }
  }

  /** Joining distinct, present names with the k-th one removed skips exactly that part. */
  lemma {:induction false} JoinWithout(names: seq<string>, dir: Dir, parts: seq<Bytes>, k: nat)
    requires |names| == |parts| && Distinct(names) && k < |names|
    requires forall j :: 0 <= j < |names| ==> names[j] in dir && dir[names[j]] == parts[j]
    ensures Join(names, dir - {names[k]}) == Flatten(parts[..k]) + Flatten(parts[k + 1..])
    decreases |names|
  {
    if k == 0 {
      JoinWithoutFirst(names, dir, parts);
    } else {
      var tail, tailParts := names[1..], parts[1..];
      assert tail[k - 1] == names[k];
      assert Distinct(tail) by {
        forall i, j | 0 <= i < j < |tail| ensures tail[i] != tail[j] {
          assert tail[i] == names[i + 1] && tail[j] == names[j + 1];
        }
      }
      forall j | 0 <= j < |tail|
        ensures tail[j] in dir && dir[tail[j]] == tailParts[j]
      {
        assert tail[j] == names[j + 1] && tailParts[j] == parts[j + 1];
      }
      JoinWithout(tail, dir, tailParts, k - 1);
      JoinWithoutLater(names, dir, parts, k);
    }
  }

  /** The step of `JoinWithout` past a name that stays: its part leads the rest. */
  lemma JoinWithoutLater(names: seq<string>, dir: Dir, parts: seq<Bytes>, k: nat)
    requires |names| == |parts| && 0 < k < |names| && names[0] != names[k]
    requires names[0] in dir && dir[names[0]] == parts[0]
    requires Join(names[1..], dir - {names[k]}) == Flatten(parts[1..][..k - 1]) + Flatten(parts[1..][k..])
    ensures Join(names, dir - {names[k]}) == Flatten(parts[..k]) + Flatten(parts[k + 1..])
  {
    var rest := dir - {names[k]};
    assert Join(names, rest) == parts[0] + Join(names[1..], rest);
    assert parts[..k][1..] == parts[1..][..k - 1];
    assert Flatten(parts[..k]) == parts[0] + Flatten(parts[1..][..k - 1]);
    assert parts[k + 1..] == parts[1..][k..];
  }

  lemma JoinWithoutFirst(names: seq<string>, dir: Dir, parts: seq<Bytes>)
    requires |names| == |parts| && Distinct(names) && 0 < |names|
    requires forall j :: 0 <= j < |names| ==> names[j] in dir && dir[names[j]] == parts[j]
    ensures Join(names, dir - {names[0]}) == Flatten(parts[1..])
  {
    var rest := dir - {names[0]};
    assert Join(names, rest) == Join(names[1..], rest);
    forall j | 0 <= j < |names| - 1
      ensures names[1..][j] in rest && rest[names[1..][j]] == parts[1..][j]
    {
      assert names[1..][j] == names[j + 1] != names[0];
    }
    JoinPresent(names[1..], rest, parts[1..]);
  }

  /** A part missing at join time is skipped: the output is the other parts, still in order. */
  lemma JoinSkipsMissingPart(path: string, data: Bytes, out: Dir, k: nat)
    requires k < ChunkCount(|data|)
    ensures var s := SplitFile(path, data, out);
      Join(s.names, s.dir - {s.names[k]}) == Flatten(Parts(data)[..k]) + Flatten(Parts(data)[k + 1..])
  {
    var s := SplitFile(path, data, out);
    PartsAreChunks(data);
    SplitNamesDistinct(path, data, out);
    JoinWithout(s.names, s.dir, Parts(data), k);
  }
}
