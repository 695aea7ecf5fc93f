/** Image locations as paths, and the part of a mirror location that is its own. */
module ImagePath {

  const SEPARATOR := '/'

  /** The pieces between separators; never empty. */
  function Split(s: string): (parts: seq<string>)
    ensures |parts| >= 1
  {
    if s == [] then [""]
    else if s[0] == SEPARATOR then [""] + Split(s[1..])
    else var rest := Split(s[1..]); [[s[0]] + rest[0]] + rest[1..]
  }

  function Join(parts: seq<string>): string {
    if parts == [] then ""
    else if |parts| == 1 then parts[0]
    else parts[0] + [SEPARATOR] + Join(parts[1..])
  }

  lemma {:induction false} JoinSplit(s: string)
    ensures Join(Split(s)) == s
  {
    if s != [] {
      var rest := Split(s[1..]);
      JoinSplit(s[1..]);
      if s[0] == SEPARATOR {
        assert ([""] + rest)[1..] == rest;
      } else {
        var parts := [[s[0]] + rest[0]] + rest[1..];
        assert parts[1..] == rest[1..];
        if |rest| == 1 {
          assert Join(parts) == [s[0]] + rest[0];
        } else {
          assert Join(parts) == [s[0]] + (rest[0] + [SEPARATOR] + Join(rest[1..]));
        }
      }
    }
  }

  predicate NoSeparator(s: string) {
    forall i :: 0 <= i < |s| ==> s[i] != SEPARATOR
  }

  lemma {:induction false} SplitPieces(s: string)
    ensures forall p :: p in Split(s) ==> NoSeparator(p)
  {
    if s != [] {
      SplitPieces(s[1..]);
      var rest := Split(s[1..]);
      if s[0] != SEPARATOR {
        assert NoSeparator(rest[0]);
        assert NoSeparator([s[0]] + rest[0]);
        assert forall p :: p in rest[1..] ==> p in rest;
      }
    }
  }

  /** Splitting undoes joining, for pieces without a separator. */
  lemma {:induction false} SplitJoin(parts: seq<string>)
    requires parts != [] && forall p :: p in parts ==> NoSeparator(p)
    ensures Split(Join(parts)) == parts
    decreases |parts|
  {
    if |parts| == 1 {
      SplitPrefix(parts[0], "");
      assert parts[0] + "" == parts[0];
      assert parts == [parts[0]];
    } else {
      SplitJoin(parts[1..]);
      var tail := [SEPARATOR] + Join(parts[1..]);
      SplitPrefix(parts[0], tail);
      assert tail[1..] == Join(parts[1..]);
      assert Split(tail) == [""] + parts[1..];
      assert parts[0] + tail == Join(parts);
      assert parts[0] + "" == parts[0] && Split(tail)[1..] == parts[1..];
      assert parts == [parts[0]] + parts[1..];
    }
  }

  lemma {:induction false} SplitPrefix(p: string, s: string)
    requires NoSeparator(p)
    ensures Split(p + s) == [p + Split(s)[0]] + Split(s)[1..]
  {
    if p == [] {
      assert p + s == s && p + Split(s)[0] == Split(s)[0];
    } else {
      SplitPrefix(p[1..], s);
      assert (p + s)[1..] == p[1..] + s && (p + s)[0] == p[0];
      var rest := Split(p[1..] + s);
      assert rest[0] == p[1..] + Split(s)[0] && rest[1..] == Split(s)[1..];
      assert [p[0]] + rest[0] == p + Split(s)[0];
    }
  }

  /** `k` trailing pieces are shared. */
  predicate SharedSuffix(a: seq<string>, b: seq<string>, k: nat) {
    k <= |a| && k <= |b| && a[|a| - k..] == b[|b| - k..]
  }

  /** The number of trailing pieces that both have. */
  function CommonSuffix(a: seq<string>, b: seq<string>): (k: nat)
    ensures k <= |a| && k <= |b|
  {
    if a == [] || b == [] || a[|a| - 1] != b[|b| - 1] then 0
    else 1 + CommonSuffix(a[..|a| - 1], b[..|b| - 1])
  }

  function MirrorURL(source: string, mirror: string): string {
    var parts := Split(mirror);
    Join(parts[..|parts| - CommonSuffix(Split(source), parts)])
  }

  /** `own` is `mirror` without the longest suffix of pieces that it shares with `source`. */
  ghost predicate OwnPart(source: string, mirror: string, own: string) {
    exists k: nat ::
      LongestShared(Split(source), Split(mirror), k) && own == Join(Split(mirror)[..|Split(mirror)| - k])
  }

  /** `k` trailing pieces are shared, and no more. */
  ghost predicate LongestShared(a: seq<string>, b: seq<string>, k: nat) {
    SharedSuffix(a, b, k) && forall j: nat :: SharedSuffix(a, b, j) ==> j <= k
  }

  method ExtractMirrorURL(source: string, mirror: string) returns (host: string)
    ensures host == MirrorURL(source, mirror)
  {
    hide Split, Join;
    var sourceParts := Split(source);
    var mirrorParts := Split(mirror);
    var unique := mirrorParts;
    var i := 0;
    assert sourceParts[..|sourceParts|] == sourceParts && mirrorParts[..|mirrorParts|] == mirrorParts;
    while i < |sourceParts| && i < |mirrorParts|
      invariant 0 <= i <= |sourceParts| && i <= |mirrorParts|
      invariant unique == mirrorParts[..|mirrorParts| - i]
      invariant CommonSuffix(sourceParts, mirrorParts) == i + CommonSuffix(sourceParts[..|sourceParts| - i], unique)
    {
      if sourceParts[|sourceParts| - 1 - i] != mirrorParts[|mirrorParts| - 1 - i] {
        break;
      }
      ShortenBoth(sourceParts[..|sourceParts| - i], unique);
      assert sourceParts[..|sourceParts| - i][..|sourceParts| - i - 1] == sourceParts[..|sourceParts| - (i + 1)];
      unique := unique[..|unique| - 1];
      i := i + 1;
    }
    host := Join(unique);
  }

  lemma ShortenBoth(a: seq<string>, b: seq<string>)
    requires a != [] && b != [] && a[|a| - 1] == b[|b| - 1]
    ensures CommonSuffix(a, b) == 1 + CommonSuffix(a[..|a| - 1], b[..|b| - 1])
  {
  }

  lemma {:induction false} CommonSuffixShared(a: seq<string>, b: seq<string>)
    ensures SharedSuffix(a, b, CommonSuffix(a, b))
    decreases |a|
  {
    var k := CommonSuffix(a, b);
    if k == 0 {
      assert a[|a|..] == [] && b[|b|..] == [];
    } else {
      var a', b' := a[..|a| - 1], b[..|b| - 1];
      CommonSuffixShared(a', b');
      assert a[|a| - k..] == a'[|a'| - (k - 1)..] + [a[|a| - 1]];
      assert b[|b| - k..] == b'[|b'| - (k - 1)..] + [b[|b| - 1]];
    }
  }

  lemma {:induction false} CommonSuffixLongest(a: seq<string>, b: seq<string>, j: nat)
    requires SharedSuffix(a, b, j)
    ensures j <= CommonSuffix(a, b)
    decreases j
  {
    if j > 0 {
      var a', b' := a[..|a| - 1], b[..|b| - 1];
      assert a[|a| - j..][j - 1] == b[|b| - j..][j - 1];
      assert a'[|a'| - (j - 1)..] == a[|a| - j..][..j - 1];
      assert b'[|b'| - (j - 1)..] == b[|b| - j..][..j - 1];
      CommonSuffixLongest(a', b', j - 1);
    }
  }

  /** The mirror URL is the mirror location without the longest suffix of pieces that the source shares: with
      that suffix of the source put back, the mirror location is complete again. */
  lemma MirrorURLIsOwnPart(source: string, mirror: string)
    ensures var a, b := Split(source), Split(mirror);
            var k := CommonSuffix(a, b);
            && SharedSuffix(a, b, k)
            && (forall j :: j > k ==> !SharedSuffix(a, b, j))
            && MirrorURL(source, mirror) == Join(b[..|b| - k])
            && Join(b[..|b| - k] + a[|a| - k..]) == mirror
  {
    hide Split, Join;
    var a, b := Split(source), Split(mirror);
    var k := CommonSuffix(a, b);
    CommonSuffixShared(a, b);
    forall j | j > k
      ensures !SharedSuffix(a, b, j)
    {
      if SharedSuffix(a, b, j) {
        CommonSuffixLongest(a, b, j);
      }
    }
    assert b[..|b| - k] + a[|a| - k..] == b;
    JoinSplit(mirror);
  }

  lemma LongestExactly(a: seq<string>, b: seq<string>, k: nat)
    ensures LongestShared(a, b, k) <==> k == CommonSuffix(a, b)
  {
    hide SharedSuffix, CommonSuffix;
    CommonSuffixShared(a, b);
    forall j: nat | SharedSuffix(a, b, j)
      ensures j <= CommonSuffix(a, b)
    {
      CommonSuffixLongest(a, b, j);
    }
  }

  /** Nothing else is its own part. */
  lemma OwnPartExactly(source: string, mirror: string, own: string)
    ensures OwnPart(source, mirror, own) <==> own == MirrorURL(source, mirror)
  {
    hide Split, Join, LongestShared, SharedSuffix, CommonSuffix;
    var a, b := Split(source), Split(mirror);
    forall k: nat
      ensures LongestShared(a, b, k) <==> k == CommonSuffix(a, b)
      ensures LongestShared(a, b, k) ==> k <= |b|
    {
      LongestExactly(a, b, k);
    }
    assert LongestShared(a, b, CommonSuffix(a, b));
  }
}
