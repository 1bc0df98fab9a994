/**
 The relative paths of a conversion upload: an incremental map from lower-cased path prefixes to
 their spelling decides whether a path collides with an earlier one.
 */
module InputPaths {
  import opened Splitting

  function Lower(c: char): char {
    if 'A' <= c <= 'Z' then c - 'A' + 'a' else c
  }

  function LowerAll(s: string): string {
    seq(|s|, i requires 0 <= i < |s| => Lower(s[i]))
  }

  /** The same letter, or the two cases of one ASCII letter. */
  predicate SameLetter(c: char, d: char) {
    c == d || ('A' <= c <= 'Z' && d as int == c as int + 32) || ('A' <= d <= 'Z' && c as int == d as int + 32)
  }

  /** Folding ignores the case of ASCII letters, and nothing else. */
  lemma FoldingIgnoresCase(a: string, b: string)
    ensures LowerAll(a) == LowerAll(b) <==>
            |a| == |b| && forall i :: 0 <= i < |a| ==> SameLetter(a[i], b[i])
  {
    if LowerAll(a) == LowerAll(b) {
      assert |LowerAll(a)| == |a| && |LowerAll(b)| == |b|;
      forall i | 0 <= i < |a| ensures SameLetter(a[i], b[i]) {
        assert LowerAll(a)[i] == LowerAll(b)[i];
      }
    }
  }

  predicate SlashFree(parts: seq<string>) {
    Without(parts, '/')
  }

  function Join(parts: seq<string>): string
    requires parts != []
  {
    JoinWith(parts, '/')
  }

  function Folded(parts: seq<string>): seq<string> {
    seq(|parts|, i requires 0 <= i < |parts| => LowerAll(parts[i]))
  }

  lemma {:induction false} LowerJoins(parts: seq<string>)
    requires parts != []
    ensures LowerAll(Join(parts)) == Join(Folded(parts))
    decreases |parts|
  {
    if |parts| > 1 {
      LowerJoins(parts[1..]);
      assert Folded(parts)[1..] == Folded(parts[1..]);
      assert LowerAll(parts[0] + "/" + Join(parts[1..])) == LowerAll(parts[0]) + "/" + LowerAll(Join(parts[1..]));
    }
  }

  lemma FoldedIsSlashFree(parts: seq<string>)
    requires SlashFree(parts)
    ensures SlashFree(Folded(parts))
  {
    forall part | part in Folded(parts) ensures '/' !in part {
      var i :| 0 <= i < |parts| && part == LowerAll(parts[i]);
      assert parts[i] in parts;
    }
  }

  function Key(parts: seq<string>): string
    requires parts != []
  {
    LowerAll(Join(parts))
  }

  /** Keys agree exactly when the part lists agree ignoring ASCII case; spellings when they are equal. */
  lemma KeysCompareParts(a: seq<string>, b: seq<string>)
    requires a != [] && b != [] && SlashFree(a) && SlashFree(b)
    ensures Key(a) == Key(b) <==> Folded(a) == Folded(b)
    ensures Join(a) == Join(b) <==> a == b
  {
    LowerJoins(a);
    LowerJoins(b);
    FoldedIsSlashFree(a);
    FoldedIsSlashFree(b);
    SplitUndoesJoin(Folded(a), '/');
    SplitUndoesJoin(Folded(b), '/');
    SplitUndoesJoin(a, '/');
    SplitUndoesJoin(b, '/');
  }

  /** Two paths can live side by side on a file system that ignores case. */
  ghost predicate Compatible(a: seq<string>, b: seq<string>) {
    Folded(a) != Folded(b) &&
    (|a| < |b| ==> Folded(a) != Folded(b[..|a|])) &&
    (|b| < |a| ==> Folded(b) != Folded(a[..|b|])) &&
    (forall k :: 0 < k < |a| && k < |b| && Folded(a[..k]) == Folded(b[..k]) ==> a[..k] == b[..k])
  }

  /** The first `at` parts of both clash: same key, and spelt differently or a whole path. */
  ghost predicate ClashAt(a: seq<string>, b: seq<string>, at: nat) {
    0 < at <= |a| && at <= |b| && Folded(a[..at]) == Folded(b[..at]) &&
    (a[..at] != b[..at] || at == |a| || at == |b|)
  }

  lemma IncompatibleMeansClash(a: seq<string>, b: seq<string>)
    requires a != [] && b != []
    ensures Compatible(a, b) <==> forall at :: !ClashAt(a, b, at)
  {
    assert a[..|a|] == a && b[..|b|] == b;
    if !Compatible(a, b) {
      if Folded(a) == Folded(b) {
        assert |Folded(a)| == |Folded(b)|;
        assert ClashAt(a, b, |a|);
      } else if |a| < |b| && Folded(a) == Folded(b[..|a|]) {
        assert ClashAt(a, b, |a|);
      } else if |b| < |a| && Folded(b) == Folded(a[..|b|]) {
        assert ClashAt(a, b, |b|);
      } else {
        var k :| 0 < k < |a| && k < |b| && Folded(a[..k]) == Folded(b[..k]) && a[..k] != b[..k];
        assert ClashAt(a, b, k);
      }
    } else {
      forall at ensures !ClashAt(a, b, at) {
      }
    }
  }

  datatype Spelling = Spelling(original: string, file: bool)

  type Paths = map<string, Spelling>

  /** What the map must say about the first `at` prefixes of a path. */
  ghost predicate Remembers(paths: Paths, parts: seq<string>, at: nat)
    requires at <= |parts|
  {
    forall k :: 0 < k <= at ==>
      Key(parts[..k]) in paths && paths[Key(parts[..k])] == Spelling(Join(parts[..k]), k == |parts|)
  }

  ghost predicate ComesFrom(key: string, all: seq<seq<string>>)
    requires forall parts :: parts in all ==> parts != []
  {
    exists i, k :: 0 <= i < |all| && 0 < k <= |all[i]| && key == Key(all[i][..k])
  }

  ghost predicate WellFormed(all: seq<seq<string>>) {
    forall parts :: parts in all ==> parts != [] && SlashFree(parts)
  }

  ghost predicate AllCompatible(all: seq<seq<string>>) {
    forall i, j :: 0 <= i < j < |all| ==> Compatible(all[i], all[j])
  }

  ghost predicate Faithful(paths: Paths, all: seq<seq<string>>)
    requires WellFormed(all)
  {
    (forall i :: 0 <= i < |all| ==> Remembers(paths, all[i], |all[i]|)) &&
    (forall key :: key in paths ==> ComesFrom(key, all))
  }

  ghost predicate Grows(paths: Paths, paths': Paths) {
    forall key :: key in paths ==> key in paths' && paths'[key] == paths[key]
  }

  ghost predicate PrefixKey(parts: seq<string>, at: nat, key: string)
    requires at <= |parts|
  {
    exists k :: 0 < k <= at && key == Key(parts[..k])
  }

  /** The map while a path is being added: the old one and the path's own first prefixes. */
  ghost predicate Extends(paths: Paths, paths': Paths, parts: seq<string>, at: nat)
    requires at <= |parts|
  {
    Grows(paths, paths') &&
    (forall key :: key in paths' && key !in paths ==> PrefixKey(parts, at, key)) &&
    Remembers(paths', parts, at)
  }

  lemma PrefixKeys(a: seq<string>, b: seq<string>, i: nat, k: nat)
    requires 0 < i <= |a| && 0 < k <= |b| && SlashFree(a) && SlashFree(b)
    ensures Key(a[..i]) == Key(b[..k]) <==> i == k && Folded(a[..i]) == Folded(b[..k])
    ensures i == k ==> (Join(a[..i]) == Join(b[..k]) <==> a[..i] == b[..k])
  {
    assert forall part :: part in a[..i] ==> part in a;
    assert forall part :: part in b[..k] ==> part in b;
    KeysCompareParts(a[..i], b[..k]);
    assert |Folded(a[..i])| == i && |Folded(b[..k])| == k;
  }

  /** Finding the key of a prefix in the map means that an accepted path has that prefix too. */
  lemma FoundMeansShared(paths: Paths, paths': Paths, all: seq<seq<string>>, parts: seq<string>, at: nat)
    requires parts != [] && SlashFree(parts) && WellFormed(all) && Faithful(paths, all)
    requires 0 < at <= |parts| && Extends(paths, paths', parts, at - 1)
    ensures Key(parts[..at]) in paths' ==> Key(parts[..at]) in paths
    ensures Key(parts[..at]) in paths ==>
      exists i :: 0 <= i < |all| && at <= |all[i]| && Folded(all[i][..at]) == Folded(parts[..at])
  {
    var key := Key(parts[..at]);
    if key in paths' && key !in paths {
      assert PrefixKey(parts, at - 1, key);
      var k :| 0 < k <= at - 1 && key == Key(parts[..k]);
      PrefixKeys(parts, parts, at, k);
    }
    if key in paths {
      var i, k :| 0 <= i < |all| && 0 < k <= |all[i]| && key == Key(all[i][..k]);
      PrefixKeys(parts, all[i], at, k);
    }
  }

  /** What the map says about a shared prefix decides whether it clashes. */
  lemma SharedMeansFound(paths: Paths, all: seq<seq<string>>, parts: seq<string>, at: nat, i: nat)
    requires parts != [] && SlashFree(parts) && WellFormed(all) && Faithful(paths, all)
    requires 0 < at <= |parts| && i < |all| && at <= |all[i]| && Folded(all[i][..at]) == Folded(parts[..at])
    ensures var key := Key(parts[..at]);
      && key in paths
      && (ClashAt(all[i], parts, at) <==>
            paths[key].original != Join(parts[..at]) || paths[key].file || at == |parts|)
  {
    assert all[i] in all;
    assert Remembers(paths, all[i], |all[i]|);
    PrefixKeys(all[i], parts, at, at);
  }

  lemma AcceptedIsFaithful(paths: Paths, paths': Paths, all: seq<seq<string>>, parts: seq<string>)
    requires parts != [] && SlashFree(parts) && WellFormed(all) && Faithful(paths, all)
    requires Extends(paths, paths', parts, |parts|)
    ensures Faithful(paths', all + [parts])
  {
    var more := all + [parts];
    forall i | 0 <= i < |more| ensures Remembers(paths', more[i], |more[i]|) {
      if i < |all| {
        assert Remembers(paths, all[i], |all[i]|);
      }
    }
    forall key | key in paths' ensures ComesFrom(key, more) {
      if key in paths {
        var i, k :| 0 <= i < |all| && 0 < k <= |all[i]| && key == Key(all[i][..k]);
        assert more[i] == all[i];
      } else {
        assert PrefixKey(parts, |parts|, key);
        var k :| 0 < k <= |parts| && key == Key(parts[..k]);
        assert more[|all|] == parts;
      }
    }
  }

  predicate Collides(paths: Paths, original: string, isFile: bool) {
    var key := LowerAll(original);
    key in paths && (paths[key].original != original || paths[key].file || isFile)
  }

  function Entered(paths: Paths, original: string, isFile: bool): Paths {
    if LowerAll(original) in paths then paths else paths[LowerAll(original) := Spelling(original, isFile)]
  }

  ghost predicate ClashesAt(all: seq<seq<string>>, parts: seq<string>, at: nat) {
    exists i :: 0 <= i < |all| && ClashAt(all[i], parts, at)
  }

  /** A prefix collides with the map exactly when it clashes with an accepted path. */
  lemma CollidesMeansClash(paths: Paths, paths': Paths, all: seq<seq<string>>, parts: seq<string>, at: nat)
    requires parts != [] && SlashFree(parts) && WellFormed(all) && Faithful(paths, all)
    requires 0 < at <= |parts| && Extends(paths, paths', parts, at - 1)
    ensures Collides(paths', Join(parts[..at]), at == |parts|) <==> ClashesAt(all, parts, at)
  {
    FoundMeansShared(paths, paths', all, parts, at);
    forall i | 0 <= i < |all| && at <= |all[i]| && Folded(all[i][..at]) == Folded(parts[..at])
      ensures Key(parts[..at]) in paths
      ensures ClashAt(all[i], parts, at) <==> Collides(paths, Join(parts[..at]), at == |parts|)
    {
      SharedMeansFound(paths, all, parts, at, i);
    }
  }

  lemma EnteringRemembers(paths: Paths, parts: seq<string>, at: nat)
    requires 0 < at <= |parts| && Remembers(paths, parts, at - 1)
    requires !Collides(paths, Join(parts[..at]), at == |parts|)
    ensures Remembers(Entered(paths, Join(parts[..at]), at == |parts|), parts, at)
  {
    var paths' := Entered(paths, Join(parts[..at]), at == |parts|);
    forall k | 0 < k <= at
      ensures Key(parts[..k]) in paths' && paths'[Key(parts[..k])] == Spelling(Join(parts[..k]), k == |parts|)
    {
      assert k < at ==> Key(parts[..k]) in paths;
    }
  }

  lemma EnteringExtends(paths: Paths, paths': Paths, parts: seq<string>, at: nat)
    requires 0 < at <= |parts| && Extends(paths, paths', parts, at - 1)
    requires !Collides(paths', Join(parts[..at]), at == |parts|)
    ensures Extends(paths, Entered(paths', Join(parts[..at]), at == |parts|), parts, at)
  {
    EnteringRemembers(paths', parts, at);
    var paths'' := Entered(paths', Join(parts[..at]), at == |parts|);
    assert Grows(paths, paths'');
    forall key | key in paths'' && key !in paths ensures PrefixKey(parts, at, key) {
      if key in paths' {
        assert PrefixKey(parts, at - 1, key);
      } else {
        assert key == Key(parts[..at]);
      }
    }
  }

  ghost predicate NoClashBelow(all: seq<seq<string>>, parts: seq<string>, at: nat) {
    forall k :: 0 < k < at ==> !ClashesAt(all, parts, k)
  }

  ghost predicate FitsIn(all: seq<seq<string>>, parts: seq<string>) {
    forall i :: 0 <= i < |all| ==> Compatible(all[i], parts)
  }

  lemma FitsInMeansNoClash(all: seq<seq<string>>, parts: seq<string>)
    requires parts != [] && WellFormed(all)
    ensures FitsIn(all, parts) <==> forall at :: !ClashesAt(all, parts, at)
  {
    forall i | 0 <= i < |all| ensures Compatible(all[i], parts) <==> forall at :: !ClashAt(all[i], parts, at) {
      assert all[i] in all;
      IncompatibleMeansClash(all[i], parts);
    }
    if FitsIn(all, parts) {
      forall at ensures !ClashesAt(all, parts, at) {
      }
    } else {
      var i :| 0 <= i < |all| && !Compatible(all[i], parts);
      var at :| ClashAt(all[i], parts, at);
      assert ClashesAt(all, parts, at);
    }
  }

  lemma NoClashMeansFits(all: seq<seq<string>>, parts: seq<string>)
    requires parts != [] && WellFormed(all) && NoClashBelow(all, parts, |parts| + 1)
    ensures FitsIn(all, parts)
  {
    FitsInMeansNoClash(all, parts);
    forall at: nat ensures !ClashesAt(all, parts, at) {
      if at > |parts| || at == 0 {
        assert forall i :: 0 <= i < |all| ==> !ClashAt(all[i], parts, at);
      }
    }
  }

  /** One turn of the loop over the prefixes of a path, when the prefix collides and when it does not. */
  lemma CollisionMeansUnfit(paths: Paths, paths': Paths, all: seq<seq<string>>, parts: seq<string>, at: nat)
    requires parts != [] && SlashFree(parts) && WellFormed(all) && Faithful(paths, all)
    requires 0 < at <= |parts| && Extends(paths, paths', parts, at - 1)
    requires Collides(paths', Join(parts[..at]), at == |parts|)
    ensures !FitsIn(all, parts)
  {
    CollidesMeansClash(paths, paths', all, parts, at);
    FitsInMeansNoClash(all, parts);
  }

  lemma NoCollisionGoesOn(paths: Paths, paths': Paths, all: seq<seq<string>>, parts: seq<string>, at: nat)
    requires parts != [] && SlashFree(parts) && WellFormed(all) && Faithful(paths, all)
    requires 0 < at <= |parts| && Extends(paths, paths', parts, at - 1) && NoClashBelow(all, parts, at)
    requires !Collides(paths', Join(parts[..at]), at == |parts|)
    ensures Extends(paths, Entered(paths', Join(parts[..at]), at == |parts|), parts, at)
    ensures NoClashBelow(all, parts, at + 1)
  {
    CollidesMeansClash(paths, paths', all, parts, at);
    EnteringExtends(paths, paths', parts, at);
  }

  /** One more path: its prefixes enter the map, or one of them clashes with an accepted path. */
  method AddPath(paths: Paths, parts: seq<string>, ghost all: seq<seq<string>>) returns (ok: bool, paths': Paths)
    requires parts != [] && SlashFree(parts) && WellFormed(all) && Faithful(paths, all)
    ensures ok <==> FitsIn(all, parts)
    ensures ok ==> Faithful(paths', all + [parts])
  {
    paths' := paths;
    for at := 1 to |parts| + 1
      invariant Extends(paths, paths', parts, at - 1)
      invariant NoClashBelow(all, parts, at)
    {
      var original := Join(parts[..at]);
      if Collides(paths', original, at == |parts|) {
        CollisionMeansUnfit(paths, paths', all, parts, at);
        return false, paths';
      }
      NoCollisionGoesOn(paths, paths', all, parts, at);
      paths' := Entered(paths', original, at == |parts|);
    }
    AcceptedIsFaithful(paths, paths', all, parts);
    NoClashMeansFits(all, parts);
    return true, paths';
  }

  ghost function PartsOf(names: seq<string>): seq<seq<string>> {
    seq(|names|, i requires 0 <= i < |names| => SplitOn(names[i], '/'))
  }

  lemma OneMorePath(names: seq<string>, n: nat)
    requires n < |names|
    ensures PartsOf(names[..n + 1]) == PartsOf(names[..n]) + [SplitOn(names[n], '/')]
  {
  }

  lemma FittingStaysCompatible(all: seq<seq<string>>, parts: seq<string>)
    requires AllCompatible(all) && FitsIn(all, parts)
    ensures AllCompatible(all + [parts])
  {
    var more := all + [parts];
    forall i, j | 0 <= i < j < |more| ensures Compatible(more[i], more[j]) {
      assert j < |all| ==> more[j] == all[j];
      assert more[i] == all[i];
    }
  }

  lemma UnfitMeansIncompatible(names: seq<string>, n: nat)
    requires n < |names| && !FitsIn(PartsOf(names[..n]), SplitOn(names[n], '/'))
    ensures !AllCompatible(PartsOf(names))
  {
    var all := PartsOf(names[..n]);
    var i :| 0 <= i < |all| && !Compatible(all[i], SplitOn(names[n], '/'));
    assert PartsOf(names)[i] == all[i] && PartsOf(names)[n] == SplitOn(names[n], '/');
  }

  /** The loop over the files: accepted exactly when any two of the paths are compatible. */
  method AcceptPaths(names: seq<string>) returns (ok: bool)
    ensures ok <==> AllCompatible(PartsOf(names))
  {
    var paths: Paths := map[];
    for n := 0 to |names|
      invariant Faithful(paths, PartsOf(names[..n])) && AllCompatible(PartsOf(names[..n]))
    {
      ghost var all := PartsOf(names[..n]);
      var accepted, paths' := AddPath(paths, SplitOn(names[n], '/'), all);
      if !accepted {
        UnfitMeansIncompatible(names, n);
        return false;
      }
      OneMorePath(names, n);
      FittingStaysCompatible(all, SplitOn(names[n], '/'));
      paths := paths';
    }
    assert names[..|names|] == names;
    return true;
  }
}
