/**
 * Operations on more than one image: the cosine similarity of two images' gray levels and
 * the ranking of candidate images by their similarity to a reference.
 */
module Processing {
  import opened Pixels
  import opened Wrappers
  import opened Transformer
  import opened Ranking

  // ----- collapseMatrix -----

  /** The low bytes (`getRGB & 0xFF`) of one row of pixels. */
  function LowBytes(row: seq<Int32>): (v: seq<int>)
    ensures |v| == |row| && forall j :: 0 <= j < |row| ==> v[j] == Blue(row[j])
  {
    seq(|row|, j requires 0 <= j < |row| => Blue(row[j]) as int)
  }

  /** The low bytes of a picture, row after row. */
  function Collapsed(pic: Picture): (v: seq<int>)
    ensures |v| == Height(pic) * Width(pic)
    decreases |pic|
  {
    if |pic| == 0 then []
    else
      var init: Picture := pic[..|pic| - 1];
      assert Width(init) == Width(pic) || |pic| == 1;
      assert (|pic| - 1) * Width(pic) + Width(pic) == |pic| * Width(pic);
      Collapsed(init) + LowBytes(pic[|pic| - 1])
  }

  /** Row-major order: the entry for (i, j) is at index i * width + j. */
  lemma {:induction false} CollapsedAt(pic: Picture, i: int, j: int)
    requires 0 <= i < Height(pic) && 0 <= j < Width(pic)
    ensures 0 <= i * Width(pic) + j < |Collapsed(pic)|
    ensures Collapsed(pic)[i * Width(pic) + j] == Blue(At(pic, i, j))
    decreases |pic|
  {
    var n := |pic|;
    var init: Picture := pic[..n - 1];
    if i < n - 1 {
      assert Width(init) == Width(pic);
      CollapsedAt(init, i, j);
      assert |Collapsed(init)| == (n - 1) * Width(pic);
    } else {
      assert |Collapsed(init)| == i * Width(pic);
    }
  }

  /** Every entry of the collapsed picture is a byte. */
  lemma {:induction false} CollapsedBytes(pic: Picture)
    ensures forall k :: 0 <= k < |Collapsed(pic)| ==> 0 <= Collapsed(pic)[k] < 256
    decreases |pic|
  {
    if |pic| > 0 {
      CollapsedBytes(pic[..|pic| - 1]);
    }
  }

  predicate AllZero(v: seq<int>)
  {
    forall k :: 0 <= k < |v| ==> v[k] == 0
  }

  /** The collapsed picture is all zeros exactly when every pixel's low byte is zero. */
  lemma {:induction false} CollapsedZero(pic: Picture)
    ensures AllZero(Collapsed(pic)) <==>
            forall r, c :: 0 <= r < Height(pic) && 0 <= c < Width(pic) ==> Blue(At(pic, r, c)) == 0
    decreases |pic|
  {
    if |pic| > 0 {
      var n := |pic|;
      var init: Picture := pic[..n - 1];
      CollapsedZero(init);
      var v := Collapsed(pic);
      assert v == Collapsed(init) + LowBytes(pic[n - 1]);
      if AllZero(v) {
        forall r, c | 0 <= r < Height(pic) && 0 <= c < Width(pic)
          ensures Blue(At(pic, r, c)) == 0
        {
          CollapsedAt(pic, r, c);
        }
      }
      if forall r, c :: 0 <= r < Height(pic) && 0 <= c < Width(pic) ==> Blue(At(pic, r, c)) == 0 {
        assert forall r, c :: 0 <= r < Height(init) && 0 <= c < Width(init) ==> At(init, r, c) == At(pic, r, c);
        assert AllZero(Collapsed(init));
        forall k | 0 <= k < |v|
          ensures v[k] == 0
        {
          if k >= |Collapsed(init)| {
            var c := k - |Collapsed(init)|;
            assert v[k] == LowBytes(pic[n - 1])[c] == Blue(At(pic, n - 1, c));
          }
        }
      }
    }
  }

  /**
   * `collapseMatrix`: the low byte of each pixel of a height x width image, appended row by
   * row; `pic` is the image's contents.
   */
  method CollapseMatrix(image: array2<Int32>, ghost pic: Picture) returns (vector: seq<int>)
    requires Holds(image, pic)
    ensures vector == Collapsed(pic)
  {
    vector := [];
    for i := 0 to image.Length0
      invariant vector == Collapsed(pic[..i])
    {
      for j := 0 to image.Length1
        invariant vector == Collapsed(pic[..i]) + LowBytes(pic[i][..j])
      {
        var gray := Blue(image[i, j]);
        vector := vector + [gray];
        assert LowBytes(pic[i][..j + 1]) == LowBytes(pic[i][..j]) + [gray];
      }
      assert pic[i][..image.Length1] == pic[i];
      assert pic[..i + 1][..i] == pic[..i];
    }
    assert pic[..image.Length0] == pic;
  }

  // ----- cosineSimilarity -----

  /** The sum of the products a[k] * b[k]. */
  function Dot(a: seq<int>, b: seq<int>): int
    requires |a| == |b|
    decreases |a|
  {
    if |a| == 0 then 0 else Dot(a[..|a| - 1], b[..|b| - 1]) + a[|a| - 1] * b[|b| - 1]
  }

  /** The sum of the squares a[k] * a[k]. */
  function SquaredNorm(a: seq<int>): int
  {
    Dot(a, a)
  }

  /** A squared magnitude is never negative, and it is zero only for the zero vector. */
  lemma {:induction false} SquaredNormZero(a: seq<int>)
    ensures SquaredNorm(a) >= 0
    ensures SquaredNorm(a) == 0 <==> AllZero(a)
    decreases |a|
  {
    if |a| > 0 {
      var init := a[..|a| - 1];
      var x := a[|a| - 1];
      SquaredNormZero(init);
      assert SquaredNorm(a) == SquaredNorm(init) + x * x;
      if SquaredNorm(a) == 0 {
        assert x * x == 0;
        assert forall k :: 0 <= k < |init| ==> a[k] == init[k];
      }
      if AllZero(a) {
        assert forall k :: 0 <= k < |init| ==> init[k] == a[k];
      }
    }
  }

  /** The dot product does not depend on the order of its arguments. */
  lemma {:induction false} DotSymmetric(a: seq<int>, b: seq<int>)
    requires |a| == |b|
    ensures Dot(a, b) == Dot(b, a)
    decreases |a|
  {
    if |a| > 0 {
      DotSymmetric(a[..|a| - 1], b[..|b| - 1]);
    }
  }

  /** The dot product of vectors with non-negative entries is non-negative. */
  lemma {:induction false} DotNonNegative(a: seq<int>, b: seq<int>)
    requires |a| == |b| && forall k :: 0 <= k < |a| ==> a[k] >= 0 && b[k] >= 0
    ensures Dot(a, b) >= 0
    decreases |a|
  {
    if |a| > 0 {
      DotNonNegative(a[..|a| - 1], b[..|b| - 1]);
    }
  }

  /** Sum over k of (a[k] * y - b[k] * x)^2, the slack in the Cauchy-Schwarz step. */
  function CrossSquares(a: seq<int>, b: seq<int>, x: int, y: int): int
    requires |a| == |b|
    decreases |a|
  {
    if |a| == 0 then 0
    else
      var d := a[|a| - 1] * y - b[|b| - 1] * x;
      CrossSquares(a[..|a| - 1], b[..|b| - 1], x, y) + d * d
  }

  /** One more term of `CrossSquaresExpand`, as arithmetic on the running sums. */
  lemma CrossStep(A: int, B: int, D: int, C: int, p: int, q: int, x: int, y: int)
    requires C == A * (y * y) + B * (x * x) - 2 * D * (x * y)
    ensures C + (p * y - q * x) * (p * y - q * x) ==
            (A + p * p) * (y * y) + (B + q * q) * (x * x) - 2 * (D + p * q) * (x * y)
  {
    assert (p * y - q * x) * (p * y - q * x) == (p * p) * (y * y) + (q * q) * (x * x) - 2 * (p * q) * (x * y);
    assert (A + p * p) * (y * y) == A * (y * y) + (p * p) * (y * y);
    assert (B + q * q) * (x * x) == B * (x * x) + (q * q) * (x * x);
    assert 2 * (D + p * q) * (x * y) == 2 * D * (x * y) + 2 * (p * q) * (x * y);
  }

  lemma {:induction false} CrossSquaresExpand(a: seq<int>, b: seq<int>, x: int, y: int)
    requires |a| == |b|
    ensures CrossSquares(a, b, x, y) == SquaredNorm(a) * (y * y) + SquaredNorm(b) * (x * x) - 2 * Dot(a, b) * (x * y)
    decreases |a|
  {
    if |a| > 0 {
      var a', b' := a[..|a| - 1], b[..|b| - 1];
      var p, q := a[|a| - 1], b[|b| - 1];
      CrossSquaresExpand(a', b', x, y);
      assert CrossSquares(a, b, x, y) == CrossSquares(a', b', x, y) + (p * y - q * x) * (p * y - q * x);
      assert SquaredNorm(a) == SquaredNorm(a') + p * p && SquaredNorm(b) == SquaredNorm(b') + q * q;
      assert Dot(a, b) == Dot(a', b') + p * q;
      CrossStep(SquaredNorm(a'), SquaredNorm(b'), Dot(a', b'), CrossSquares(a', b', x, y), p, q, x, y);
    }
  }

  lemma {:induction false} CrossSquaresNonNegative(a: seq<int>, b: seq<int>, x: int, y: int)
    requires |a| == |b|
    ensures CrossSquares(a, b, x, y) >= 0
    decreases |a|
  {
    if |a| > 0 {
      CrossSquaresNonNegative(a[..|a| - 1], b[..|b| - 1], x, y);
    }
  }

  /** Cauchy-Schwarz: the cosine of two vectors lies in [-1, 1]. */
  lemma {:induction false} CauchySchwarz(a: seq<int>, b: seq<int>)
    requires |a| == |b|
    ensures Dot(a, b) * Dot(a, b) <= SquaredNorm(a) * SquaredNorm(b)
    decreases |a|
  {
    if |a| > 0 {
      var a', b' := a[..|a| - 1], b[..|b| - 1];
      var x, y := a[|a| - 1], b[|b| - 1];
      CauchySchwarz(a', b');
      CrossSquaresExpand(a', b', x, y);
      CrossSquaresNonNegative(a', b', x, y);
      var A, B, D := SquaredNorm(a'), SquaredNorm(b'), Dot(a', b');
      assert SquaredNorm(a) == A + x * x && SquaredNorm(b) == B + y * y && Dot(a, b) == D + x * y;
      CauchyStep(A, B, D, CrossSquares(a', b', x, y), x, y);
    }
  }

  /** The inductive step of `CauchySchwarz`, as arithmetic on the running sums. */
  lemma CauchyStep(A: int, B: int, D: int, C: int, x: int, y: int)
    requires D * D <= A * B && 0 <= C == A * (y * y) + B * (x * x) - 2 * D * (x * y)
    ensures (D + x * y) * (D + x * y) <= (A + x * x) * (B + y * y)
  {
    assert (A + x * x) * (B + y * y) == A * B + A * (y * y) + B * (x * x) + (x * x) * (y * y);
    assert (D + x * y) * (D + x * y) == D * D + 2 * D * (x * y) + (x * y) * (x * y);
    assert (x * x) * (y * y) == (x * y) * (x * y);
  }

  /** The result of `cosineSimilarity` before its final floating-point division. */
  datatype Similarity =
    | BothBlack                                  // both magnitudes zero: the result is 1
    | OneBlack                                   // exactly one magnitude zero: the result is 0
    | Cosine(dot: int, mag1: int, mag2: int)     // dot / (sqrt(mag1) * sqrt(mag2))

  /** The zero-magnitude policy of `cosineSimilarity`. */
  function Classify(dot: int, mag1: int, mag2: int): (s: Similarity)
    ensures s == BothBlack <==> mag1 == 0 && mag2 == 0
    ensures s == OneBlack <==> (mag1 == 0) != (mag2 == 0)
    ensures s.Cosine? <==> mag1 != 0 && mag2 != 0
    ensures s.Cosine? ==> s.dot == dot && s.mag1 == mag1 && s.mag2 == mag2
  {
    if mag1 == 0 && mag2 == 0 then BothBlack
    else if mag1 == 0 || mag2 == 0 then OneBlack
    else Cosine(dot, mag1, mag2)
  }

  /** The `double` that `cosineSimilarity` returns, with the square-root quotient as `ratio`. */
  function Value(s: Similarity, ratio: (int, int, int) -> real): (v: real)
    ensures s == BothBlack ==> v == 1.0
    ensures s == OneBlack ==> v == 0.0
    ensures s.Cosine? ==> v == ratio(s.dot, s.mag1, s.mag2)
  {
    match s
    case BothBlack => 1.0
    case OneBlack => 0.0
    case Cosine(dot, mag1, mag2) => ratio(dot, mag1, mag2)
  }

  /** The image `grayscale` produces, as contents. */
  function GrayPicture(pic: Picture, toGray: Colour -> Colour): (g: Picture)
    ensures Height(g) == Height(pic) && Width(g) == Width(pic)
    ensures forall r, c :: 0 <= r < Height(pic) && 0 <= c < Width(pic) ==>
              At(g, r, c) == Pack(toGray(Unpack(At(pic, r, c))))
  {
    var rows: seq<seq<Int32>> := seq(Height(pic), r requires 0 <= r < Height(pic) =>
      seq<Int32>(Width(pic), c requires 0 <= c < Width(pic) => Pack(toGray(Unpack(At(pic, r, c))))));
    assert forall r :: 0 <= r < |rows| ==> |rows[r]| == Width(pic);
    rows
  }

  /** The gray levels of one row of pixels. */
  function GrayRow(row: seq<Int32>, toGray: Colour -> Colour): (v: seq<int>)
    ensures |v| == |row|
    decreases |row|
  {
    if |row| == 0 then []
    else GrayRow(row[..|row| - 1], toGray) + [toGray(Unpack(row[|row| - 1])).blue as int]
  }

  /**
   * The gray levels `cosineSimilarity` compares, row after row: the low bytes of the
   * grayscale image (`GrayVectorCollapsed`).
   */
  function GrayVector(pic: Picture, toGray: Colour -> Colour): seq<int>
    decreases |pic|
  {
    if |pic| == 0 then []
    else
      var init: Picture := pic[..|pic| - 1];
      GrayVector(init, toGray) + GrayRow(pic[|pic| - 1], toGray)
  }

  lemma {:induction false} GrayRowAt(row: seq<Int32>, toGray: Colour -> Colour, c: int)
    requires 0 <= c < |row|
    ensures GrayRow(row, toGray)[c] == toGray(Unpack(row[c])).blue
    decreases |row|
  {
    if c < |row| - 1 {
      GrayRowAt(row[..|row| - 1], toGray, c);
    }
  }

  lemma {:induction false} GrayVectorLength(pic: Picture, toGray: Colour -> Colour)
    ensures |GrayVector(pic, toGray)| == Height(pic) * Width(pic)
    decreases |pic|
  {
    if |pic| > 0 {
      var init: Picture := pic[..|pic| - 1];
      GrayVectorLength(init, toGray);
      assert Width(init) == Width(pic) || |pic| == 1;
      assert (|pic| - 1) * Width(pic) + Width(pic) == |pic| * Width(pic);
    }
  }

  /** The gray levels are the collapsed grayscale image. */
  lemma {:induction false} GrayVectorCollapsed(pic: Picture, toGray: Colour -> Colour)
    ensures GrayVector(pic, toGray) == Collapsed(GrayPicture(pic, toGray))
    decreases |pic|
  {
    if |pic| > 0 {
      var n := |pic|;
      var init: Picture := pic[..n - 1];
      var g := GrayPicture(pic, toGray);
      var gInit: Picture := g[..n - 1];
      GrayVectorCollapsed(init, toGray);
      assert gInit == GrayPicture(init, toGray) by {
        forall r | 0 <= r < n - 1
          ensures gInit[r] == GrayPicture(init, toGray)[r]
        {
          forall c | 0 <= c < Width(pic)
            ensures gInit[r][c] == GrayPicture(init, toGray)[r][c]
          {
            assert gInit[r][c] == At(g, r, c);
            assert GrayPicture(init, toGray)[r][c] == At(GrayPicture(init, toGray), r, c);
          }
        }
      }
      var low, gray := LowBytes(g[n - 1]), GrayRow(pic[n - 1], toGray);
      assert low == gray by {
        forall c | 0 <= c < Width(pic)
          ensures low[c] == gray[c]
        {
          GrayRowAt(pic[n - 1], toGray, c);
          assert g[n - 1][c] == At(g, n - 1, c);
        }
      }
    }
  }

  /** What `cosineSimilarity` computes for two images of the same size. */
  function SimilarityOf(pic1: Picture, pic2: Picture, toGray: Colour -> Colour): Similarity
    requires Height(pic1) == Height(pic2) && Width(pic1) == Width(pic2)
  {
    GrayVectorLength(pic1, toGray);
    GrayVectorLength(pic2, toGray);
    var a, b := GrayVector(pic1, toGray), GrayVector(pic2, toGray);
    Classify(Dot(a, b), SquaredNorm(a), SquaredNorm(b))
  }

  /** An image is black when every pixel's gray level is zero. */
  ghost predicate Black(pic: Picture, toGray: Colour -> Colour)
  {
    forall r, c :: 0 <= r < Height(pic) && 0 <= c < Width(pic) ==> toGray(Unpack(At(pic, r, c))).blue == 0
  }

  lemma GrayVectorZero(pic: Picture, toGray: Colour -> Colour)
    ensures AllZero(GrayVector(pic, toGray)) <==> Black(pic, toGray)
  {
    var g := GrayPicture(pic, toGray);
    GrayVectorCollapsed(pic, toGray);
    CollapsedZero(g);
    forall r, c | 0 <= r < Height(pic) && 0 <= c < Width(pic)
      ensures Blue(At(g, r, c)) == toGray(Unpack(At(pic, r, c))).blue
    {
    }
  }

  /**
   * The zero-magnitude policy in terms of the images: two black images are fully similar,
   * a black and a non-black one not at all, and only two non-black ones get a cosine.
   */
  lemma SimilarityCases(pic1: Picture, pic2: Picture, toGray: Colour -> Colour)
    requires Height(pic1) == Height(pic2) && Width(pic1) == Width(pic2)
    ensures SimilarityOf(pic1, pic2, toGray) == BothBlack <==> Black(pic1, toGray) && Black(pic2, toGray)
    ensures SimilarityOf(pic1, pic2, toGray) == OneBlack <==> Black(pic1, toGray) != Black(pic2, toGray)
    ensures SimilarityOf(pic1, pic2, toGray).Cosine? <==> !Black(pic1, toGray) && !Black(pic2, toGray)
  {
    SquaredNormZero(GrayVector(pic1, toGray));
    SquaredNormZero(GrayVector(pic2, toGray));
    GrayVectorZero(pic1, toGray);
    GrayVectorZero(pic2, toGray);
  }

  /** A cosine is never negative (gray levels are bytes) and never exceeds 1. */
  lemma CosineInRange(pic1: Picture, pic2: Picture, toGray: Colour -> Colour)
    requires Height(pic1) == Height(pic2) && Width(pic1) == Width(pic2)
    requires SimilarityOf(pic1, pic2, toGray).Cosine?
    ensures var s := SimilarityOf(pic1, pic2, toGray);
      s.dot >= 0 && s.mag1 > 0 && s.mag2 > 0 && s.dot * s.dot <= s.mag1 * s.mag2
  {
    var a, b := GrayVector(pic1, toGray), GrayVector(pic2, toGray);
    GrayVectorCollapsed(pic1, toGray);
    GrayVectorCollapsed(pic2, toGray);
    CollapsedBytes(GrayPicture(pic1, toGray));
    CollapsedBytes(GrayPicture(pic2, toGray));
    DotNonNegative(a, b);
    SquaredNormZero(a);
    SquaredNormZero(b);
    CauchySchwarz(a, b);
  }

  /** An image is fully similar to itself: black, or a cosine whose three terms agree. */
  lemma SelfSimilarity(pic: Picture, toGray: Colour -> Colour)
    ensures var s := SimilarityOf(pic, pic, toGray);
      s == BothBlack || (s.Cosine? && s.dot == s.mag1 == s.mag2)
  {
    SquaredNormZero(GrayVector(pic, toGray));
  }

  /** Similarity is symmetric: swapping the images swaps the two magnitudes only. */
  lemma SimilaritySymmetric(pic1: Picture, pic2: Picture, toGray: Colour -> Colour)
    requires Height(pic1) == Height(pic2) && Width(pic1) == Width(pic2)
    ensures var s, t := SimilarityOf(pic1, pic2, toGray), SimilarityOf(pic2, pic1, toGray);
      if s.Cosine? then t == Cosine(s.dot, s.mag2, s.mag1) else t == s
  {
    GrayVectorLength(pic1, toGray);
    GrayVectorLength(pic2, toGray);
    DotSymmetric(GrayVector(pic1, toGray), GrayVector(pic2, toGray));
  }

  /** The first half of `cosineSimilarity`'s work: the image's grayscale version, collapsed. */
  method GrayLevels(img: array2<Int32>, toGray: Colour -> Colour) returns (vector: seq<int>)
    ensures vector == GrayVector(Snapshot(img), toGray)
  {
    var transform := new ImageTransformer(img);
    var gray := transform.Grayscale(toGray);
    vector := CollapseMatrix(gray, GrayPicture(transform.pixels, toGray));
    GrayVectorCollapsed(transform.pixels, toGray);
  }

  /** The loop of `cosineSimilarity`: the dot product and the two squared magnitudes. */
  method Accumulate(vec1: seq<int>, vec2: seq<int>) returns (dot: int, vec1Mag: int, vec2Mag: int)
    requires |vec1| == |vec2|
    ensures dot == Dot(vec1, vec2) && vec1Mag == SquaredNorm(vec1) && vec2Mag == SquaredNorm(vec2)
  {
    vec1Mag := 0;
    vec2Mag := 0;
    dot := 0;
    for i := 0 to |vec1|
      invariant dot == Dot(vec1[..i], vec2[..i])
      invariant vec1Mag == SquaredNorm(vec1[..i]) && vec2Mag == SquaredNorm(vec2[..i])
    {
      var vec1Element := vec1[i];
      var vec2Element := vec2[i];
      assert vec1[..i + 1][..i] == vec1[..i] && vec2[..i + 1][..i] == vec2[..i];
      dot := dot + vec1Element * vec2Element;
      vec1Mag := vec1Mag + vec1Element * vec1Element;
      vec2Mag := vec2Mag + vec2Element * vec2Element;
    }
    assert vec1[..|vec1|] == vec1 && vec2[..|vec2|] == vec2;
  }

  /** Both images present and of the same size: the pairs `cosineSimilarity` accepts. */
  predicate Comparable(img1: Image, img2: Image)
  {
    img1 != null && img2 != null && img1.Length0 == img2.Length0 && img1.Length1 == img2.Length1
  }

  /** The exception `cosineSimilarity` throws for a pair it does not accept. */
  function ErrorOf(img1: Image, img2: Image): Error
  {
    if img1 == null || img2 == null then NullImage else IllegalArgument
  }

  /**
   * `cosineSimilarity(img1, img2)`: a null-image exception for a missing image, an
   * IllegalArgumentException for images of different sizes, and otherwise the similarity
   * of their grayscale versions.
   */
  method CosineSimilarity(img1: array2?<Int32>, img2: array2?<Int32>, toGray: Colour -> Colour)
    returns (result: Result<Similarity>)
    ensures img1 == null || img2 == null ==> result == Failure(NullImage)
    ensures img1 != null && img2 != null && (img1.Length1 != img2.Length1 || img1.Length0 != img2.Length0) ==>
              result == Failure(IllegalArgument)
    ensures img1 != null && img2 != null && img1.Length0 == img2.Length0 && img1.Length1 == img2.Length1 ==>
              result == Success(SimilarityOf(Snapshot(img1), Snapshot(img2), toGray))
    ensures result.Success? <==> Comparable(img1, img2)
    ensures result.Failure? ==> result.error == ErrorOf(img1, img2)
  {
    if img1 == null || img2 == null {
      return Failure(NullImage);
    }
    if img1.Length1 != img2.Length1 || img1.Length0 != img2.Length0 {
      return Failure(IllegalArgument);
    }
    var vec1 := GrayLevels(img1, toGray);
    var vec2 := GrayLevels(img2, toGray);
    GrayVectorLength(Snapshot(img1), toGray);
    GrayVectorLength(Snapshot(img2), toGray);
    var dot, vec1Mag, vec2Mag := Accumulate(vec1, vec2);
    return Success(Classify(dot, vec1Mag, vec2Mag));
  }

  // ----- bestMatch -----

  /** Two image contents of the same size. */
  predicate SameSize(pic1: Picture, pic2: Picture)
  {
    Height(pic1) == Height(pic2) && Width(pic1) == Width(pic2)
  }

  /** The value `cosineSimilarity` returns for two images of the same size, given their contents. */
  function PictureScore(pic1: Picture, pic2: Picture, toGray: Colour -> Colour, ratio: (int, int, int) -> real): real
    requires SameSize(pic1, pic2)
  {
    Value(SimilarityOf(pic1, pic2, toGray), ratio)
  }

  /** e is what the first candidate `cosineSimilarity` rejects makes it throw. */
  predicate FirstFailure(img: Image, candidates: seq<Image>, e: Error)
  {
    exists k :: 0 <= k < |candidates| && !Comparable(img, candidates[k]) && e == ErrorOf(img, candidates[k]) &&
      forall l :: 0 <= l < k ==> Comparable(img, candidates[l])
  }

  /** The contents an image holds are its snapshot. */
  lemma HoldsSnapshot(image: array2<Int32>, pic: Picture)
    requires Holds(image, pic)
    ensures pic == Snapshot(image)
  {
    var snap := Snapshot(image);
    assert |pic| == |snap|;
    forall r | 0 <= r < |pic|
      ensures pic[r] == snap[r]
    {
      assert |pic[r]| == |snap[r]| == image.Length1;
      assert forall c :: 0 <= c < image.Length1 ==> pic[r][c] == At(pic, r, c) == image[r, c] == snap[r][c];
    }
  }

  /** One candidate of `bestMatch`'s first loop: `cosineSimilarity(img, candidate)`. */
  method ScoreCandidate(img: Image, candidate: Image, toGray: Colour -> Colour, ratio: (int, int, int) -> real,
                        ghost imgPic: Picture, ghost candidatePic: Picture)
    returns (result: Result<real>)
    requires img != null ==> Holds(img, imgPic)
    requires candidate != null ==> Holds(candidate, candidatePic)
    ensures result.Success? <==> Comparable(img, candidate)
    ensures result.Failure? ==> result.error == ErrorOf(img, candidate)
    ensures result.Success? ==>
              SameSize(imgPic, candidatePic) && result.value == PictureScore(imgPic, candidatePic, toGray, ratio)
  {
    var similarity := CosineSimilarity(img, candidate, toGray);
    if similarity.Failure? {
      return Failure(similarity.error);
    }
    HoldsSnapshot(img, imgPic);
    HoldsSnapshot(candidate, candidatePic);
    return Success(Value(similarity.value, ratio));
  }

  /** pics[k] is the contents of candidates[k], for each candidate present. */
  ghost predicate HoldAll(candidates: array<Image>, pics: seq<Picture>)
    reads candidates, set k | 0 <= k < candidates.Length && candidates[k] != null :: candidates[k]
  {
    |pics| == candidates.Length &&
    forall k :: 0 <= k < candidates.Length && candidates[k] != null ==> Holds(candidates[k], pics[k])
  }

  /** One pass of the first loop of `bestMatch`: `similarities.add(cosineSimilarity(img, candidates[k]))`. */
  method AddSimilarity(img: Image, candidates: array<Image>, similarities: array<real>, k: int,
                       toGray: Colour -> Colour, ratio: (int, int, int) -> real, ghost imgPic: Picture, ghost pics: seq<Picture>)
    returns (similarity: Result<real>)
    requires img != null ==> Holds(img, imgPic)
    requires HoldAll(candidates, pics)
    requires 0 <= k < candidates.Length == similarities.Length
    requires forall l :: 0 <= l < k ==> SameSize(imgPic, pics[l])
    requires forall l {:trigger PictureScore(imgPic, pics[l], toGray, ratio)} :: 0 <= l < k ==>
               similarities[l] == PictureScore(imgPic, pics[l], toGray, ratio)
    modifies similarities
    ensures similarity.Success? <==> Comparable(img, candidates[k])
    ensures similarity.Failure? ==> similarity.error == ErrorOf(img, candidates[k])
    ensures similarity.Success? ==> SameSize(imgPic, pics[k])
    ensures similarity.Success? ==> forall l {:trigger PictureScore(imgPic, pics[l], toGray, ratio)} :: 0 <= l <= k ==>
              similarities[l] == PictureScore(imgPic, pics[l], toGray, ratio)
  {
    similarity := ScoreCandidate(img, candidates[k], toGray, ratio, imgPic, pics[k]);
    if similarity.Success? {
      similarities[k] := similarity.value;
      assert forall l :: 0 <= l < k ==> similarities[l] == old(similarities[l]);
    }
  }

  /**
   * The first loop of `bestMatch`: the similarity of img to each candidate, in order, or
   * the exception of the first candidate `cosineSimilarity` rejects.
   */
  method Similarities(img: Image, candidates: array<Image>, toGray: Colour -> Colour, ratio: (int, int, int) -> real,
                      ghost imgPic: Picture, ghost pics: seq<Picture>)
    returns (result: Result<array<real>>)
    requires img != null ==> Holds(img, imgPic)
    requires HoldAll(candidates, pics)
    ensures result.Success? <==> forall k :: 0 <= k < candidates.Length ==> Comparable(img, candidates[k])
    ensures result.Failure? ==> FirstFailure(img, candidates[..], result.error)
    ensures result.Success? ==> fresh(result.value) && result.value.Length == candidates.Length
    ensures result.Success? ==> forall k :: 0 <= k < candidates.Length ==> SameSize(imgPic, pics[k])
    ensures result.Success? ==> forall k {:trigger PictureScore(imgPic, pics[k], toGray, ratio)} ::
              0 <= k < candidates.Length ==> result.value[k] == PictureScore(imgPic, pics[k], toGray, ratio)
  {
    var similarities := new real[candidates.Length];
    for k := 0 to candidates.Length
      invariant forall l :: 0 <= l < k ==> Comparable(img, candidates[l]) && SameSize(imgPic, pics[l])
      invariant forall l {:trigger PictureScore(imgPic, pics[l], toGray, ratio)} :: 0 <= l < k ==>
                  similarities[l] == PictureScore(imgPic, pics[l], toGray, ratio)
    {
      var similarity := AddSimilarity(img, candidates, similarities, k, toGray, ratio, imgPic, pics);
      if similarity.Failure? {
        assert candidates[..][k] == candidates[k];
        assert forall l :: 0 <= l < k ==> candidates[..][l] == candidates[l];
        return Failure(similarity.error);
      }
    }
    return Success(similarities);
  }

  /**
   * `bestMatch(img, matchingCandidates)`, with `imgPic` and `pics` the contents of the image
   * and of the candidates: the exception of the first candidate `cosineSimilarity` rejects,
   * the list then left as it was; otherwise the same list, rearranged by the permutation
   * `order`, so that the similarities to img never increase from front to back.
   */
  method BestMatch(img: Image, matchingCandidates: array<Image>, toGray: Colour -> Colour, ratio: (int, int, int) -> real,
                   ghost imgPic: Picture, ghost pics: seq<Picture>)
    returns (result: Result<array<Image>>, ghost order: seq<int>)
    requires img != null ==> Holds(img, imgPic)
    requires HoldAll(matchingCandidates, pics)
    modifies matchingCandidates
    ensures result.Success? <==> forall k :: 0 <= k < matchingCandidates.Length ==> Comparable(img, old(matchingCandidates[k]))
    ensures result.Failure? ==>
              matchingCandidates[..] == old(matchingCandidates[..]) && FirstFailure(img, matchingCandidates[..], result.error)
    ensures result.Success? ==> result.value == matchingCandidates
    ensures result.Success? ==> |order| == matchingCandidates.Length && Reorders(order, 0, |order|)
    ensures result.Success? ==> matchingCandidates[..] == Permute(old(matchingCandidates[..]), order)
    ensures result.Success? ==> multiset(matchingCandidates[..]) == multiset(old(matchingCandidates[..]))
    ensures result.Success? ==> forall k :: 0 <= k < |order| ==> SameSize(imgPic, pics[order[k]])
    ensures result.Success? ==> forall i, j :: 0 <= i < j < |order| ==>
              PictureScore(imgPic, pics[order[j]], toGray, ratio) <= PictureScore(imgPic, pics[order[i]], toGray, ratio)
  {
    var scored := Similarities(img, matchingCandidates, toGray, ratio, imgPic, pics);
    if scored.Failure? {
      return Failure(scored.error), [];
    }
    var similarities := scored.value;
    ghost var s0 := similarities[..];
    order := SortDescending(similarities, matchingCandidates);
    forall i, j | 0 <= i < j < |order|
      ensures PictureScore(imgPic, pics[order[j]], toGray, ratio) <= PictureScore(imgPic, pics[order[i]], toGray, ratio)
    {
      assert 0 <= order[i] < |s0| && 0 <= order[j] < |s0|;
      assert s0[order[j]] <= s0[order[i]];
    }
    return Success(matchingCandidates), order;
  }
}
