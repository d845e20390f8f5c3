/** The visitation order of the images: `_order_images_by_similarity` with its
    distance `_hist_distance`.  The signature of an image, computed in the
    source by decoding and histogramming it, is a parameter of the model: a
    total function from file name to an optional sequence of weights. */
module Similarity {
  import opened Options
  import opened Strings
  import opened Sorting

  type Signature = seq<real>

  /** An image together with its signature (the `(path, signature)` tuples). */
  datatype Feature = Feature(path: string, sig: Signature)

  /** Above this many images the distance chaining is skipped. */
  const MaxSimilarityImages: nat := 250

  /** Sort key of a feature: the lower-cased file name. */
  function FeatureKey(f: Feature): string
  {
    Lower(f.path)
  }

  function Names(fs: seq<Feature>): (r: seq<string>)
    ensures |r| == |fs|
    ensures forall i :: 0 <= i < |fs| ==> r[i] == fs[i].path
  {
    seq(|fs|, i requires 0 <= i < |fs| => fs[i].path)
  }

  // ---------------------------------------------------------------- distance

  /** `_hist_distance`: the sum of squared differences over the pairs that
      `zip` forms, so over the shorter of the two sequences. */
  function Dist(a: Signature, b: Signature): (d: real)
    ensures d >= 0.0
  {
    if |a| == 0 || |b| == 0 then 0.0
    else (a[0] - b[0]) * (a[0] - b[0]) + Dist(a[1..], b[1..])
  }

  lemma {:induction false} DistSymmetric(a: Signature, b: Signature)
    ensures Dist(a, b) == Dist(b, a)
  {
    if |a| > 0 && |b| > 0 {
      DistSymmetric(a[1..], b[1..]);
    }
  }

  lemma {:induction false} DistSelfZero(a: Signature)
    ensures Dist(a, a) == 0.0
  {
    if |a| > 0 {
      DistSelfZero(a[1..]);
    }
  }

  // ------------------------------------------------------------ greedy step

  /** `min(enumerate(features), key=distance to tail)`: Python's `min` keeps
      the first minimum and replaces it only by a strictly smaller one, so the
      result is the earliest index of minimal distance. */
  function ArgMin(tail: Signature, fs: seq<Feature>): (i: nat)
    requires |fs| > 0
    ensures i < |fs|
    ensures forall j :: 0 <= j < |fs| ==> Dist(tail, fs[i].sig) <= Dist(tail, fs[j].sig)
    ensures forall j :: 0 <= j < i ==> Dist(tail, fs[i].sig) < Dist(tail, fs[j].sig)
  {
    if |fs| == 1 then 0
    else
      var k := ArgMin(tail, fs[..|fs| - 1]);
      assert fs[..|fs| - 1][k] == fs[k];
      if Dist(tail, fs[|fs| - 1].sig) < Dist(tail, fs[k].sig) then |fs| - 1 else k
  }

  /** `features.pop(i)`. */
  function Remove<T>(s: seq<T>, i: nat): (r: seq<T>)
    requires i < |s|
    ensures |r| == |s| - 1
    ensures forall p :: 0 <= p < |r| ==> r[p] == (if p < i then s[p] else s[p + 1])
    ensures multiset(r) + multiset{s[i]} == multiset(s)
  {
    assert s == s[..i] + [s[i]] + s[i + 1..];
    s[..i] + s[i + 1..]
  }

  /** The greedy nearest-neighbour chain the `while features:` loop builds
      from the current tail signature over the remaining features. */
  function Chain(tail: Signature, fs: seq<Feature>): seq<Feature>
    decreases |fs|
  {
    if |fs| == 0 then []
    else
      var i := ArgMin(tail, fs);
      [fs[i]] + Chain(fs[i].sig, Remove(fs, i))
  }

  // ------------------------------------------------------------ whole order

  /** The images whose signature exists, paired with it, in scan order. */
  function Signed(images: seq<string>, signature: string -> Option<Signature>): seq<Feature>
  {
    if |images| == 0 then []
    else
      var last := images[|images| - 1];
      Signed(images[..|images| - 1], signature)
      + (match signature(last) case Some(v) => [Feature(last, v)] case None => [])
  }

  /** The images without a signature (the `fallbacks`), in scan order. */
  function Unsigned(images: seq<string>, signature: string -> Option<Signature>): seq<string>
  {
    if |images| == 0 then []
    else
      var last := images[|images| - 1];
      Unsigned(images[..|images| - 1], signature) + (if signature(last).None? then [last] else [])
  }

  /** The signed images in visiting order: the name-smallest first, then the
      greedy chain from its signature over the rest in name order. */
  function SignedChain(images: seq<string>, signature: string -> Option<Signature>): seq<Feature>
  {
    var sorted := SortBy(Signed(images, signature), FeatureKey);
    if |sorted| == 0 then [] else [sorted[0]] + Chain(sorted[0].sig, sorted[1..])
  }

  /** What `_order_images_by_similarity` returns. */
  function SimilarityOrder(images: seq<string>, signature: string -> Option<Signature>): seq<string>
  {
    if |images| == 0 then []
    else if |images| > MaxSimilarityImages then SortBy(images, Lower)
    else Names(SignedChain(images, signature)) + SortBy(Unsigned(images, signature), Lower)
  }

  /** `_order_images_by_similarity`, with its loops. */
  method OrderImagesBySimilarity(images: seq<string>, signature: string -> Option<Signature>)
    returns (ordered: seq<string>)
    ensures ordered == SimilarityOrder(images, signature)
    ensures |images| == 0 ==> ordered == []
    ensures |images| > MaxSimilarityImages ==> ordered == SortBy(images, Lower)
  {
    if |images| == 0 {
      return [];
    }
    if |images| > MaxSimilarityImages {
      return SortBy(images, Lower);
    }
    var features, fallbacks := SplitBySignature(images, signature);
    ordered := [];
    if |features| > 0 {
      features := SortBy(features, FeatureKey);
      ordered := GreedyChain(features[0], features[1..]);
    }
    ordered := ordered + SortBy(fallbacks, Lower);
  }

  /** The `for path in image_paths:` loop: pairs each image with its
      signature, or sets it aside when it has none. */
  method SplitBySignature(images: seq<string>, signature: string -> Option<Signature>)
    returns (features: seq<Feature>, fallbacks: seq<string>)
    ensures features == Signed(images, signature)
    ensures fallbacks == Unsigned(images, signature)
  {
    features := [];
    fallbacks := [];
    for i := 0 to |images|
      invariant features == Signed(images[..i], signature)
      invariant fallbacks == Unsigned(images[..i], signature)
    {
      SplitStep(images, i, signature);
      var s := signature(images[i]);
      if s.None? {
        fallbacks := fallbacks + [images[i]];
      } else {
        features := features + [Feature(images[i], s.value)];
      }
    }
    assert images[..|images|] == images;
  }

  /** The `while features:` loop: starting from the seed `first`, repeatedly
      pops the remaining feature nearest to the current tail and appends its
      path. */
  method GreedyChain(first: Feature, rest: seq<Feature>) returns (ordered: seq<string>)
    ensures ordered == Names([first] + Chain(first.sig, rest))
  {
    ghost var chained := Names([first] + Chain(first.sig, rest));
    NamesConcat([first], Chain(first.sig, rest));
    ordered := [first.path];
    var features := rest;
    var currentSig := first.sig;
    while |features| > 0
      invariant ordered + Names(Chain(currentSig, features)) == chained
      decreases |features|
    {
      var next := ArgMin(currentSig, features);
      ChainStep(ordered, currentSig, features, chained);
      ordered := ordered + [features[next].path];
      currentSig := features[next].sig;
      features := Remove(features, next);
    }
    assert Names(Chain(currentSig, features)) == [];
  }

  /** One turn of the `while features:` loop keeps its invariant. */
  lemma ChainStep(ordered: seq<string>, tail: Signature, fs: seq<Feature>, target: seq<string>)
    requires |fs| > 0
    requires ordered + Names(Chain(tail, fs)) == target
    ensures var i := ArgMin(tail, fs);
            (ordered + [fs[i].path]) + Names(Chain(fs[i].sig, Remove(fs, i))) == target
  {
    var i := ArgMin(tail, fs);
    var rest := Names(Chain(fs[i].sig, Remove(fs, i)));
    NamesChainUnfold(tail, fs);
    assert (ordered + [fs[i].path]) + rest == ordered + ([fs[i].path] + rest);
  }

  lemma NamesChainUnfold(tail: Signature, fs: seq<Feature>)
    requires |fs| > 0
    ensures var i := ArgMin(tail, fs);
            Names(Chain(tail, fs)) == [fs[i].path] + Names(Chain(fs[i].sig, Remove(fs, i)))
  {
    var i := ArgMin(tail, fs);
    var c := Chain(fs[i].sig, Remove(fs, i));
    assert Chain(tail, fs) == [fs[i]] + c;
    NamesConcat([fs[i]], c);
    assert Names([fs[i]]) == [fs[i].path];
  }

  // ------------------------------------------------------------ properties

  /** One more image scanned: the for loop's step. */
  lemma SplitStep(images: seq<string>, i: nat, signature: string -> Option<Signature>)
    requires i < |images|
    ensures Signed(images[..i + 1], signature) == Signed(images[..i], signature)
      + (match signature(images[i]) case Some(v) => [Feature(images[i], v)] case None => [])
    ensures Unsigned(images[..i + 1], signature) == Unsigned(images[..i], signature)
      + (if signature(images[i]).None? then [images[i]] else [])
  {
    assert images[..i + 1][..i] == images[..i];
  }

  lemma NamesConcat(a: seq<Feature>, b: seq<Feature>)
    ensures Names(a + b) == Names(a) + Names(b)
  {
  }

  lemma NamesRemove(fs: seq<Feature>, p: nat)
    requires p < |fs|
    ensures Names(Remove(fs, p)) == Remove(Names(fs), p)
  {
  }

  lemma {:induction false} SignedUnsignedSplit(images: seq<string>, signature: string -> Option<Signature>)
    ensures multiset(Names(Signed(images, signature))) + multiset(Unsigned(images, signature))
         == multiset(images)
  {
    if |images| > 0 {
      var n := |images| - 1;
      var init := images[..n];
      var last := images[n];
      SignedUnsignedSplit(init, signature);
      assert images == init + [last];
      var s0 := Signed(init, signature);
      var u0 := Unsigned(init, signature);
      if signature(last).Some? {
        var f := Feature(last, signature(last).value);
        assert Signed(images, signature) == s0 + [f];
        assert Unsigned(images, signature) == u0;
        NamesConcat(s0, [f]);
        assert Names([f]) == [last];
      } else {
        assert Signed(images, signature) == s0;
        assert Unsigned(images, signature) == u0 + [last];
      }
    }
  }

  lemma {:induction false} ChainPermutation(tail: Signature, fs: seq<Feature>)
    ensures multiset(Chain(tail, fs)) == multiset(fs)
    decreases |fs|
  {
    if |fs| > 0 {
      var i := ArgMin(tail, fs);
      ChainPermutation(fs[i].sig, Remove(fs, i));
    }
  }

  lemma NamesRemoveMultiset(b: seq<Feature>, p: nat)
    requires p < |b|
    ensures multiset(Names(b)) == multiset(Names(Remove(b, p))) + multiset{b[p].path}
  {
    NamesRemove(b, p);
    var nb := Names(b);
    assert multiset(Remove(nb, p)) + multiset{nb[p]} == multiset(nb);
  }

  lemma MultisetCancel<T>(a: multiset<T>, b: multiset<T>, x: T)
    requires a + multiset{x} == b + multiset{x}
    ensures a == b
  {
    forall y ensures a[y] == b[y] {
      assert (a + multiset{x})[y] == (b + multiset{x})[y];
    }
  }

  lemma {:induction false} NamesMultiset(a: seq<Feature>, b: seq<Feature>)
    requires multiset(a) == multiset(b)
    ensures multiset(Names(a)) == multiset(Names(b))
    decreases |a|
  {
    if |a| > 0 {
      assert a[0] in multiset(b);
      var p :| 0 <= p < |b| && b[p] == a[0];
      var b' := Remove(b, p);
      assert a == [a[0]] + a[1..];
      MultisetCancel(multiset(a[1..]), multiset(b'), a[0]);
      NamesMultiset(a[1..], b');
      NamesRemoveMultiset(a, 0);
      assert Remove(a, 0) == a[1..];
      NamesRemoveMultiset(b, p);
    } else {
      assert |b| == |multiset(b)| == 0;
    }
  }

  lemma SignedChainPermutation(images: seq<string>, signature: string -> Option<Signature>)
    ensures multiset(SignedChain(images, signature)) == multiset(Signed(images, signature))
  {
    var sorted := SortBy(Signed(images, signature), FeatureKey);
    if |sorted| > 0 {
      ChainPermutation(sorted[0].sig, sorted[1..]);
      assert sorted == [sorted[0]] + sorted[1..];
    }
  }

  /** Every image appears in the order exactly as often as in the input:
      signed ones in the chain, the others among the fallbacks. */
  lemma OrderIsPermutation(images: seq<string>, signature: string -> Option<Signature>)
    ensures multiset(SimilarityOrder(images, signature)) == multiset(images)
  {
    if 0 < |images| <= MaxSimilarityImages {
      SignedChainPermutation(images, signature);
      NamesMultiset(SignedChain(images, signature), Signed(images, signature));
      SignedUnsignedSplit(images, signature);
    }
  }

  lemma {:induction false} SignedMembers(images: seq<string>, signature: string -> Option<Signature>)
    ensures forall f :: f in Signed(images, signature) <==> f.path in images && signature(f.path) == Some(f.sig)
    ensures forall x :: x in Unsigned(images, signature) <==> x in images && signature(x).None?
  {
    if |images| > 0 {
      var n := |images| - 1;
      SignedMembers(images[..n], signature);
      assert images == images[..n] + [images[n]];
    }
  }

  /** The signature of the previous element of `[tail-holder] + c` at `k`. */
  function PrevSig(tail: Signature, c: seq<Feature>, k: nat): Signature
    requires k < |c|
  {
    if k == 0 then tail else c[k - 1].sig
  }

  /** `chosen` is an acceptable greedy pick against `other` from `prev`: it is
      no farther, and on a tie it comes no later in name order. */
  predicate GreedyChoice(prev: Signature, chosen: Feature, other: Feature)
  {
    && Dist(prev, chosen.sig) <= Dist(prev, other.sig)
    && (Dist(prev, chosen.sig) == Dist(prev, other.sig) ==> LessEq(FeatureKey(chosen), FeatureKey(other)))
  }

  lemma RemoveSorted(fs: seq<Feature>, i: nat)
    requires i < |fs| && SortedBy(fs, FeatureKey)
    ensures SortedBy(Remove(fs, i), FeatureKey)
  {
    var r := Remove(fs, i);
    forall a, b | 0 <= a < b < |r| ensures LessEq(FeatureKey(r[a]), FeatureKey(r[b])) {
      var a' := if a < i then a else a + 1;
      var b' := if b < i then b else b + 1;
      assert r[a] == fs[a'] && r[b] == fs[b'] && a' < b';
    }
  }

  /** The pick of `min` beats every other remaining feature. */
  lemma ArgMinIsGreedy(tail: Signature, fs: seq<Feature>, q: nat)
    requires q < |fs| && SortedBy(fs, FeatureKey)
    requires q != ArgMin(tail, fs)
    ensures GreedyChoice(tail, fs[ArgMin(tail, fs)], fs[q])
  {
    var i := ArgMin(tail, fs);
    if Dist(tail, fs[i].sig) == Dist(tail, fs[q].sig) {
      assert i < q;
    }
  }

  /** What remains after a pop comes from the other positions. */
  lemma RemovedFrom<T>(s: seq<T>, i: nat, x: T)
    requires i < |s| && x in multiset(Remove(s, i))
    ensures exists q :: 0 <= q < |s| && q != i && s[q] == x
  {
    var r := Remove(s, i);
    var p :| 0 <= p < |r| && r[p] == x;
    var q := if p < i then p else p + 1;
    assert s[q] == x;
  }

  /** `f` is an acceptable greedy pick from `prev` against every one of `rest`. */
  predicate BeatsAll(prev: Signature, f: Feature, rest: seq<Feature>)
  {
    forall j :: 0 <= j < |rest| ==> GreedyChoice(prev, f, rest[j])
  }

  /** Every element of `c` is an acceptable greedy pick, from the signature
      before it (`tail` for the first), against all that follow it. */
  predicate GreedyFrom(tail: Signature, c: seq<Feature>)
    decreases |c|
  {
    |c| == 0 || (BeatsAll(tail, c[0], c[1..]) && GreedyFrom(c[0].sig, c[1..]))
  }

  /** `GreedyFrom` stated position by position. */
  lemma {:induction false} GreedyAt(tail: Signature, c: seq<Feature>, k: nat, j: nat)
    requires GreedyFrom(tail, c) && k < j < |c|
    decreases k
    ensures GreedyChoice(PrevSig(tail, c, k), c[k], c[j])
  {
    if k == 0 {
      assert c[j] == c[1..][j - 1];
    } else {
      GreedyAt(c[0].sig, c[1..], k - 1, j - 1);
      assert c[k] == c[1..][k - 1] && c[j] == c[1..][j - 1];
    }
  }

  /** Each element of the chain is the nearest of those not yet placed to the
      one before it, ties going to the name-smallest, provided the features
      start in name order (as `features.sort` leaves them). */
  lemma {:induction false} ChainIsGreedy(tail: Signature, fs: seq<Feature>)
    requires SortedBy(fs, FeatureKey)
    ensures GreedyFrom(tail, Chain(tail, fs))
    decreases |fs|
  {
    var c := Chain(tail, fs);
    if |fs| > 0 {
      var i := ArgMin(tail, fs);
      var rest := Remove(fs, i);
      var c' := Chain(fs[i].sig, rest);
      assert c[0] == fs[i] && c[1..] == c';
      RemoveSorted(fs, i);
      ChainIsGreedy(fs[i].sig, rest);
      ChainPermutation(fs[i].sig, rest);
      forall j | 0 <= j < |c'| ensures GreedyChoice(tail, fs[i], c'[j]) {
        assert c'[j] in multiset(rest);
        RemovedFrom(fs, i, c'[j]);
        var q :| 0 <= q < |fs| && q != i && fs[q] == c'[j];
        ArgMinIsGreedy(tail, fs, q);
      }
    }
  }

  /** The greedy property along the signed part of the order: from the second
      element on, each is the nearest of the not yet placed ones to its
      predecessor, ties going to the name-smallest. */
  lemma SignedChainIsGreedy(images: seq<string>, signature: string -> Option<Signature>)
    ensures var sc := SignedChain(images, signature);
            forall k, j :: 1 <= k < j < |sc| ==> GreedyChoice(sc[k - 1].sig, sc[k], sc[j])
  {
    var sorted := SortBy(Signed(images, signature), FeatureKey);
    var sc := SignedChain(images, signature);
    if |sorted| > 0 {
      var c := Chain(sorted[0].sig, sorted[1..]);
      assert SortedBy(sorted[1..], FeatureKey) by {
        SortedByTail(sorted, FeatureKey);
      }
      ChainIsGreedy(sorted[0].sig, sorted[1..]);
      assert sc[0] == sorted[0] && sc[1..] == c;
      GreedyPairs(sc);
    }
  }

  /** `GreedyFrom` from the first element on, stated for each pair of
      positions after it. */
  lemma GreedyPairs(s: seq<Feature>)
    requires |s| > 0 && GreedyFrom(s[0].sig, s[1..])
    ensures forall k, j :: 1 <= k < j < |s| ==> GreedyChoice(s[k - 1].sig, s[k], s[j])
  {
    forall k, j | 1 <= k < j < |s| ensures GreedyChoice(s[k - 1].sig, s[k], s[j]) {
      GreedyAt(s[0].sig, s[1..], k - 1, j - 1);
      assert s[k] == s[1..][k - 1] && s[j] == s[1..][j - 1];
      assert PrevSig(s[0].sig, s[1..], k - 1) == s[k - 1].sig;
    }
  }

  /** Up to the threshold the order is the signed chain followed by the
      unsigned images in name order. */
  lemma SmallSetOrder(images: seq<string>, signature: string -> Option<Signature>)
    requires 0 < |images| <= MaxSimilarityImages
    ensures SimilarityOrder(images, signature)
         == Names(SignedChain(images, signature)) + SortBy(Unsigned(images, signature), Lower)
  {
  }

  /** The signed chain starts with the head of the name-sorted features. */
  lemma SignedChainHead(images: seq<string>, signature: string -> Option<Signature>)
    requires |Signed(images, signature)| > 0
    ensures |SignedChain(images, signature)| > 0
    ensures SignedChain(images, signature)[0] == SortBy(Signed(images, signature), FeatureKey)[0]
  {
  }

  /** The order starts with the signed image of smallest lower-cased name, the
      earliest scanned one among equal names. */
  lemma SeedIsFirstSmallestSigned(images: seq<string>, signature: string -> Option<Signature>)
    requires |images| <= MaxSimilarityImages
    requires exists x :: x in images && signature(x).Some?
    ensures var r := SimilarityOrder(images, signature);
            var f := Signed(images, signature);
            && |r| > 0
            && exists i ::
                 && 0 <= i < |f| && r[0] == f[i].path
                 && (forall j :: 0 <= j < |f| ==> LessEq(FeatureKey(f[i]), FeatureKey(f[j])))
                 && (forall j :: 0 <= j < i ==> FeatureKey(f[j]) != FeatureKey(f[i]))
  {
    var f := Signed(images, signature);
    SignedNonEmpty(images, signature);
    var i := SortByHeadIndex(f, FeatureKey);
    SortByHeadMin(f, FeatureKey);
    SignedChainHead(images, signature);
    SmallSetOrder(images, signature);
    var sc := SignedChain(images, signature);
    var r := SimilarityOrder(images, signature);
    assert r[0] == Names(sc)[0] == sc[0].path == f[i].path;
  }

  /** Some image with a signature gives some feature. */
  lemma SignedNonEmpty(images: seq<string>, signature: string -> Option<Signature>)
    requires exists x :: x in images && signature(x).Some?
    ensures |Signed(images, signature)| > 0
  {
    var x :| x in images && signature(x).Some?;
    SignedMembers(images, signature);
    assert Feature(x, signature(x).value) in Signed(images, signature);
  }

  /** Images without a signature come after all signed ones, sorted by
      lower-cased name; the signed ones are exactly the chain. */
  lemma FallbacksLast(images: seq<string>, signature: string -> Option<Signature>)
    requires 0 < |images| <= MaxSimilarityImages
    ensures var r := SimilarityOrder(images, signature);
            var m := |Signed(images, signature)|;
            && m <= |r|
            && (forall k :: 0 <= k < m ==> signature(r[k]).Some?)
            && (forall k :: m <= k < |r| ==> signature(r[k]).None?)
            && SortedBy(r[m..], Lower)
            && multiset(r[m..]) == multiset(Unsigned(images, signature))
  {
    var ns := Names(SignedChain(images, signature));
    var u := SortBy(Unsigned(images, signature), Lower);
    SmallSetOrder(images, signature);
    SignedChainLength(images, signature);
    forall k | 0 <= k < |ns| ensures signature(ns[k]).Some? {
      ChainMemberSigned(images, signature, k);
    }
    forall k | 0 <= k < |u| ensures signature(u[k]).None? {
      FallbackUnsigned(images, signature, k);
    }
    SplitAt(SimilarityOrder(images, signature), ns, u, x => signature(x).Some?, x => signature(x).None?);
  }

  /** What holds of every element of `a` and of `b` holds of `r = a + b` on
      the matching positions. */
  lemma SplitAt<T>(r: seq<T>, a: seq<T>, b: seq<T>, p: T -> bool, q: T -> bool)
    requires r == a + b
    requires forall k :: 0 <= k < |a| ==> p(a[k])
    requires forall k :: 0 <= k < |b| ==> q(b[k])
    ensures forall k :: 0 <= k < |a| ==> p(r[k])
    ensures forall k :: |a| <= k < |r| ==> q(r[k])
    ensures r[..|a|] == a && r[|a|..] == b
  {
    forall k | |a| <= k < |r| ensures q(r[k]) {
      assert r[k] == b[k - |a|];
    }
  }

  lemma SignedChainLength(images: seq<string>, signature: string -> Option<Signature>)
    ensures |SignedChain(images, signature)| == |Signed(images, signature)|
  {
    var sc := SignedChain(images, signature);
    var f := Signed(images, signature);
    SignedChainPermutation(images, signature);
    assert |sc| == |multiset(sc)| == |multiset(f)| == |f|;
  }

  /** Each element of the signed chain carries its image's signature. */
  lemma ChainMemberSigned(images: seq<string>, signature: string -> Option<Signature>, k: nat)
    requires k < |SignedChain(images, signature)|
    ensures signature(SignedChain(images, signature)[k].path) == Some(SignedChain(images, signature)[k].sig)
  {
    var sc := SignedChain(images, signature);
    SignedChainPermutation(images, signature);
    SignedMembers(images, signature);
    assert sc[k] in multiset(sc);
    assert sc[k] in Signed(images, signature);
  }

  /** Each fallback has no signature. */
  lemma FallbackUnsigned(images: seq<string>, signature: string -> Option<Signature>, k: nat)
    requires k < |SortBy(Unsigned(images, signature), Lower)|
    ensures signature(SortBy(Unsigned(images, signature), Lower)[k]).None?
  {
    var u := SortBy(Unsigned(images, signature), Lower);
    SignedMembers(images, signature);
    assert u[k] in multiset(u);
    assert u[k] in Unsigned(images, signature);
  }

  /** Above the threshold the order is the stable sort by lower-cased name and
      does not depend on any signature. */
  lemma LargeSetSortedByName(images: seq<string>, signature: string -> Option<Signature>)
    requires |images| > MaxSimilarityImages
    ensures var r := SimilarityOrder(images, signature);
            && SortedBy(r, Lower)
            && multiset(r) == multiset(images)
            && (forall k :: KeyFilter(r, Lower, k) == KeyFilter(images, Lower, k))
            && (forall other :: SimilarityOrder(images, other) == r)
  {
    forall k ensures KeyFilter(SortBy(images, Lower), Lower, k) == KeyFilter(images, Lower, k) {
      SortByStable(images, Lower, k);
    }
  }
}
