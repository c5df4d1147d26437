/** The tombstoned vector store of src/dxdb/dxdb.cpp: an append-only list of documents and
    a map from ids to positions.  Removal only marks a document; `Compact` drops the marks. */
module VectorStore {
  import opened Counting
  import opened Index
  import opened Reals

  datatype Document = Document(id: string, text: string, embedding: seq<real>, deleted: bool)
  datatype Entry = Entry(text: string, embedding: seq<real>)
  datatype Match = Match(id: string, text: string, similarity: real)
  datatype State = State(docs: seq<Document>, index: map<string, nat>)

  // ---------------------------------------------------------------- similarity

  function Dot(a: seq<real>, b: seq<real>, count: nat): real
    requires count <= |a| && count <= |b|
  {
    if count == 0 then 0.0 else Dot(a, b, count - 1) + Product(a[count - 1], b[count - 1])
  }

  /** The square root, as far as the score depends on it. */
  ghost predicate IsSqrt(sqrt: real -> real) {
    forall x: real :: x >= 0.0 ==> sqrt(x) >= 0.0 && Product(sqrt(x), sqrt(x)) == x
  }

  function Cosine(sqrt: real -> real, a: seq<real>, b: seq<real>): real
    requires |a| == |b|
  {
    var denom := Product(sqrt(Dot(a, a, |a|)), sqrt(Dot(b, b, |b|)));
    if denom > 0.00000001 then Dot(a, b, |a|) / denom else 0.0
  }

  method CosineSimilarity(sqrt: real -> real, a: seq<real>, b: seq<real>, dim: nat) returns (similarity: real)
    requires |a| == |b| == dim
    ensures similarity == Cosine(sqrt, a, b)
  {
    hide Product;
    var dot, normA, normB := 0.0, 0.0, 0.0;
    for i := 0 to dim
      invariant dot == Dot(a, b, i) && normA == Dot(a, a, i) && normB == Dot(b, b, i)
    {
      dot := dot + Product(a[i], b[i]);
      normA := normA + Product(a[i], a[i]);
      normB := normB + Product(b[i], b[i]);
    }
    var denom := Product(sqrt(normA), sqrt(normB));
    similarity := if denom > 0.00000001 then dot / denom else 0.0;
  }

  lemma Expand(a: real, b: real, c: real, d: real)
    ensures Product(a + b, c + d) == Product(a, c) + Product(a, d) + Product(b, c) + Product(b, d)
    ensures Product(a - b, c) == Product(a, c) - Product(b, c)
  {
  }

  lemma Regroup(a: real, b: real, c: real, d: real)
    ensures Product(Product(a, b), Product(c, d)) == Product(Product(a, c), Product(b, d))
  {
  }

  lemma StrictSquares(x: real, y: real)
    requires y >= 0.0
    ensures x > y ==> Product(x, x) > Product(y, y)
    ensures x < -y ==> Product(x, x) > Product(y, y)
  {
    ProductSign(x - y, x + y);
    ProductSign(-x - y, -x + y);
    assert Product(x - y, x + y) == Product(x, x) - Product(y, y);
    assert Product(-x - y, -x + y) == Product(x, x) - Product(y, y);
  }

  /** A bound on a product bounds the mixed term by the mean. */
  lemma MixedTerm(t: real, u: real, v: real)
    requires u >= 0.0 && v >= 0.0 && Product(t, t) <= Product(u, v)
    ensures 2.0 * t <= u + v
  {
    ProductSign(u - v, u - v);
    assert Product(u + v, u + v) == Product(u - v, u - v) + 4.0 * Product(u, v);
    assert Product(2.0 * t, 2.0 * t) == 4.0 * Product(t, t);
    StrictSquares(2.0 * t, u + v);
  }

  lemma MixedBound(d: real, p: real, q: real, x: real, y: real)
    requires Product(d, d) <= Product(p, q)
    ensures var t := Product(d, Product(x, y));
      Product(t, t) <= Product(Product(p, Product(y, y)), Product(q, Product(x, x)))
  {
    hide Product;
    var w := Product(x, y);
    ProductSign(w, w);
    ProductSign(x, y);
    Regroup(d, w, d, w);
    Regroup(p, Product(y, y), q, Product(x, x));
    Regroup(y, y, x, x);
    ProductSign(Product(p, q) - Product(d, d), Product(w, w));
    Expand(Product(p, q), Product(d, d), Product(w, w), 0.0);
  }

  /** One more coordinate keeps the Cauchy-Schwarz inequality. */
  lemma CauchyStep(d: real, p: real, q: real, x: real, y: real)
    requires p >= 0.0 && q >= 0.0 && Product(d, d) <= Product(p, q)
    ensures p + Product(x, x) >= 0.0
    ensures Product(d + Product(x, y), d + Product(x, y)) <= Product(p + Product(x, x), q + Product(y, y))
  {
    hide Product;
    var w, xx, yy := Product(x, y), Product(x, x), Product(y, y);
    ProductSign(x, y);
    ProductSign(y, y);
    MixedBound(d, p, q, x, y);
    ProductSign(p, yy);
    ProductSign(q, xx);
    MixedTerm(Product(d, w), Product(p, yy), Product(q, xx));
    ProductSign(d, w);
    Regroup(x, y, x, y);
    Expand(d, w, d, w);
    Expand(p, xx, q, yy);
  }

  lemma {:induction false} CauchySchwarz(a: seq<real>, b: seq<real>, count: nat)
    requires count <= |a| && count <= |b|
    ensures Dot(a, a, count) >= 0.0 && Dot(b, b, count) >= 0.0
    ensures Product(Dot(a, b, count), Dot(a, b, count)) <= Product(Dot(a, a, count), Dot(b, b, count))
  {
    if count == 0 {
      ProductSign(0.0, 0.0);
    } else {
      hide Product;
      var i := count - 1;
      CauchySchwarz(a, b, i);
      ProductSign(b[i], b[i]);
      CauchyStep(Dot(a, b, i), Dot(a, a, i), Dot(b, b, i), a[i], b[i]);
    }
  }

  lemma QuotientBounded(x: real, y: real)
    requires y > 0.0 && -y <= x <= y
    ensures -1.0 <= x / y <= 1.0
  {
  }

  /** Every score lies between -1 and 1. */
  lemma CosineBounded(sqrt: real -> real, a: seq<real>, b: seq<real>)
    requires IsSqrt(sqrt) && |a| == |b|
    ensures -1.0 <= Cosine(sqrt, a, b) <= 1.0
  {
    hide Product;
    var n := |a|;
    CauchySchwarz(a, b, n);
    var rootA, rootB := sqrt(Dot(a, a, n)), sqrt(Dot(b, b, n));
    var denom := Product(rootA, rootB);
    if denom > 0.00000001 {
      Regroup(rootA, rootB, rootA, rootB);
      StrictSquares(Dot(a, b, n), denom);
      QuotientBounded(Dot(a, b, n), denom);
    }
  }

  // ---------------------------------------------------------------- what a score means

  /** The inner product of combinations: (p a - q b) . (p a - q b). */
  lemma {:induction false} DotOfCombination(w: seq<real>, a: seq<real>, b: seq<real>, p: real, q: real, count: nat)
    requires count <= |w| == |a| == |b| && forall i :: 0 <= i < |w| ==> w[i] == Product(p, a[i]) - Product(q, b[i])
    ensures Dot(w, w, count)
         == Product(Product(p, p), Dot(a, a, count)) - 2.0 * Product(Product(p, q), Dot(a, b, count))
            + Product(Product(q, q), Dot(b, b, count))
  {
    if count == 0 {
      Zeros(Product(p, p), Product(p, q), Product(q, q));
    } else {
      hide Product;
      var i := count - 1;
      DotOfCombination(w, a, b, p, q, i);
      SquareOf(a[i], b[i], p, q);
      Sums(Product(p, p), Dot(a, a, i), Product(a[i], a[i]));
      Sums(Product(p, q), Dot(a, b, i), Product(a[i], b[i]));
      Sums(Product(q, q), Dot(b, b, i), Product(b[i], b[i]));
    }
  }

  lemma Zeros(x: real, y: real, z: real)
    ensures Product(x, 0.0) == Product(y, 0.0) == Product(z, 0.0) == 0.0
  {
  }

  lemma Sums(c: real, x: real, y: real)
    ensures Product(c, x + y) == Product(c, x) + Product(c, y)
  {
  }

  lemma SquareOf(a: real, b: real, p: real, q: real)
    ensures var w := Product(p, a) - Product(q, b);
      Product(w, w) == Product(Product(p, p), Product(a, a)) - 2.0 * Product(Product(p, q), Product(a, b))
                       + Product(Product(q, q), Product(b, b))
  {
  }

  /** The two norms, multiplied. */
  function Norms(sqrt: real -> real, a: seq<real>, b: seq<real>): real {
    Product(sqrt(Dot(a, a, |a|)), sqrt(Dot(b, b, |b|)))
  }

  lemma NormsSquared(sqrt: real -> real, a: seq<real>, b: seq<real>)
    requires IsSqrt(sqrt) && |a| == |b|
    ensures Norms(sqrt, a, b) >= 0.0
    ensures Product(Norms(sqrt, a, b), Norms(sqrt, a, b)) == Product(Dot(a, a, |a|), Dot(b, b, |b|))
  {
    hide Product;
    CauchySchwarz(a, b, |a|);
    var x, y := sqrt(Dot(a, a, |a|)), sqrt(Dot(b, b, |b|));
    Regroup(x, y, x, y);
    ProductSign(x, y);
  }

  /** The law of cosines: the score of two vectors is that of the angle between them. */
  lemma LawOfCosines(sqrt: real -> real, a: seq<real>, b: seq<real>, w: seq<real>)
    requires |a| == |b| == |w| && forall i :: 0 <= i < |w| ==> w[i] == a[i] - b[i]
    requires Norms(sqrt, a, b) > 0.00000001
    ensures Dot(w, w, |w|)
         == Dot(a, a, |a|) + Dot(b, b, |b|) - 2.0 * Product(Norms(sqrt, a, b), Cosine(sqrt, a, b))
  {
    forall x ensures Product(1.0, x) == x {
    }
    DotOfCombination(w, a, b, 1.0, 1.0, |w|);
    Multiplied(Dot(a, b, |a|), Norms(sqrt, a, b));
  }

  lemma Multiplied(x: real, y: real)
    requires y != 0.0
    ensures Product(y, x / y) == x
  {
  }

  /** So among vectors of one length the nearest to the query has the highest score. */
  lemma NearestScoresHighest(sqrt: real -> real, q: seq<real>, a: seq<real>, b: seq<real>, u: seq<real>, v: seq<real>)
    requires |q| == |a| == |b| == |u| == |v| && Dot(a, a, |a|) == Dot(b, b, |b|)
    requires forall i :: 0 <= i < |q| ==> u[i] == q[i] - a[i] && v[i] == q[i] - b[i]
    requires Norms(sqrt, q, a) > 0.00000001
    ensures Cosine(sqrt, q, a) > Cosine(sqrt, q, b) <==> Dot(u, u, |u|) < Dot(v, v, |v|)
  {
    LawOfCosines(sqrt, q, a, u);
    LawOfCosines(sqrt, q, b, v);
    hide Dot, Cosine;
    var n, x, y := Norms(sqrt, q, a), Cosine(sqrt, q, a), Cosine(sqrt, q, b);
    Larger(n, x, y);
  }

  lemma Larger(n: real, x: real, y: real)
    requires n > 0.0
    ensures x > y <==> Product(n, x) > Product(n, y)
  {
    ProductSign(n, x - y);
    ProductSign(n, y - x);
    assert Product(n, x - y) == Product(n, x) - Product(n, y) == -Product(n, y - x);
  }

  /** b is a positive multiple of a. */
  ghost predicate Aligned(a: seq<real>, b: seq<real>) {
    |a| == |b| && exists c: real :: c > 0.0 && Scaled(a, b, c)
  }

  ghost predicate Scaled(a: seq<real>, b: seq<real>, c: real)
    requires |a| == |b|
  {
    forall i :: 0 <= i < |a| ==> b[i] == Product(c, a[i])
  }

  /** A score of 1 belongs to the positive multiples of a vector, and to nothing else. */
  lemma CosineOneIff(sqrt: real -> real, a: seq<real>, b: seq<real>)
    requires IsSqrt(sqrt) && |a| == |b| && Norms(sqrt, a, b) > 0.00000001
    ensures Cosine(sqrt, a, b) == 1.0 <==> Aligned(a, b)
  {
    if Aligned(a, b) {
      var c: real :| c > 0.0 && Scaled(a, b, c);
      MultipleScoresOne(sqrt, a, b, c);
    }
    if Cosine(sqrt, a, b) == 1.0 {
      OneIsMultiple(sqrt, a, b);
    }
  }

  lemma {:induction false} DotOfMultiple(a: seq<real>, b: seq<real>, c: real, count: nat)
    requires count <= |a| == |b| && Scaled(a, b, c)
    ensures Dot(a, b, count) == Product(c, Dot(a, a, count))
    ensures Dot(b, b, count) == Product(c, Product(c, Dot(a, a, count)))
  {
    if count > 0 {
      DotOfMultiple(a, b, c, count - 1);
      MultipleTerm(c, Dot(a, a, count - 1), a[count - 1]);
    }
  }

  lemma MultipleTerm(c: real, s: real, x: real)
    ensures Product(c, s) + Product(x, Product(c, x)) == Product(c, s + Product(x, x))
    ensures Product(c, Product(c, s)) + Product(Product(c, x), Product(c, x))
         == Product(c, Product(c, s + Product(x, x)))
  {
  }

  lemma MultipleScoresOne(sqrt: real -> real, a: seq<real>, b: seq<real>, c: real)
    requires IsSqrt(sqrt) && |a| == |b| && Norms(sqrt, a, b) > 0.00000001 && c > 0.0 && Scaled(a, b, c)
    ensures Cosine(sqrt, a, b) == 1.0
  {
    var n, d := Norms(sqrt, a, b), Dot(a, b, |a|);
    NormsSquared(sqrt, a, b);
    DotOfMultiple(a, b, c, |a|);
    CauchySchwarz(a, b, |a|);
    hide Dot, Product;
    var s := Dot(a, a, |a|);
    ProductSign(c, s);
    SquareMoved(c, s);
    SameRoot(n, d);
    hide Norms;
    Divides(d);
  }

  lemma SquareMoved(c: real, s: real)
    ensures Product(s, Product(c, Product(c, s))) == Product(Product(c, s), Product(c, s))
  {
  }

  lemma SameRoot(x: real, y: real)
    requires x >= 0.0 && y >= 0.0 && Product(x, x) == Product(y, y)
    ensures x == y
  {
    StrictSquares(x, y);
    StrictSquares(y, x);
  }

  lemma Divides(d: real)
    requires d > 0.0
    ensures d / d == 1.0
  {
  }

  lemma {:induction false} ZeroNorm(w: seq<real>, count: nat)
    requires count <= |w| && Dot(w, w, count) <= 0.0
    ensures forall i :: 0 <= i < count ==> w[i] == 0.0
  {
    if count > 0 {
      CauchySchwarz(w, w, count - 1);
      ProductSign(w[count - 1], w[count - 1]);
      ZeroSquare(w[count - 1]);
      ZeroNorm(w, count - 1);
    }
  }

  lemma ZeroSquare(x: real)
    ensures Product(x, x) >= 0.0 && (Product(x, x) == 0.0 ==> x == 0.0)
  {
    StrictSquares(x, 0.0);
  }

  /** The equality case of the Cauchy-Schwarz inequality. */
  lemma OneIsMultiple(sqrt: real -> real, a: seq<real>, b: seq<real>)
    requires IsSqrt(sqrt) && |a| == |b| && Norms(sqrt, a, b) > 0.00000001 && Cosine(sqrt, a, b) == 1.0
    ensures Aligned(a, b)
  {
    var n := |a|;
    var d, s, t := Dot(a, b, n), Dot(a, a, n), Dot(b, b, n);
    NormsSquared(sqrt, a, b);
    Multiplied(d, Norms(sqrt, a, b));
    assert d == Norms(sqrt, a, b);
    CauchySchwarz(a, b, n);
    var w := seq(n, i requires 0 <= i < n => Product(d, a[i]) - Product(s, b[i]));
    DotOfCombination(w, a, b, d, s, n);
    hide Dot, Norms, Cosine;
    NothingLeft(d, s, t);
    ZeroNorm(w, n);
    forall i | 0 <= i < n ensures b[i] == Product(d / s, a[i]) {
      assert w[i] == 0.0;
      Solved(d, s, a[i], b[i]);
    }
    PositiveRatio(d, s);
    assert Scaled(a, b, d / s);
  }

  lemma NothingLeft(d: real, s: real, t: real)
    requires d > 0.0 && s >= 0.0 && t >= 0.0 && Product(d, d) == Product(s, t)
    ensures s > 0.0
    ensures Product(Product(d, d), s) - 2.0 * Product(Product(d, s), d) + Product(Product(s, s), t) == 0.0
  {
    ProductSign(d, d);
    assert s == 0.0 ==> Product(s, t) == 0.0;
    var dd := Product(d, d);
    assert Product(Product(s, s), t) == Product(s, Product(s, t)) == Product(s, dd);
    assert Product(Product(d, s), d) == Product(s, dd) == Product(dd, s);
  }

  lemma Solved(d: real, s: real, x: real, y: real)
    requires s > 0.0 && Product(d, x) - Product(s, y) == 0.0
    ensures y == Product(d / s, x)
  {
    assert d / s * s == d;
    assert s * (d / s * x) == d * x;
    assert s * y == d * x;
    SameFactor(s, y, d / s * x);
  }

  lemma SameFactor(s: real, x: real, y: real)
    requires s > 0.0 && s * x == s * y
    ensures x == y
  {
  }

  lemma PositiveRatio(d: real, s: real)
    requires d > 0.0 && s > 0.0
    ensures d / s > 0.0
  {
  }

  /** In particular a vector that is long enough has score 1 against itself. */
  lemma SelfScore(sqrt: real -> real, a: seq<real>)
    requires IsSqrt(sqrt) && Dot(a, a, |a|) > 0.00000001
    ensures Cosine(sqrt, a, a) == 1.0
  {
    assert forall x :: Product(1.0, x) == x;
    assert Scaled(a, a, 1.0);
    assert Norms(sqrt, a, a) == Dot(a, a, |a|);
    MultipleScoresOne(sqrt, a, a, 1.0);
  }

  // ---------------------------------------------------------------- the state

  /** The index maps exactly the stored ids, each to its only position. */
  ghost predicate Sound(s: State) {
    && (forall i :: 0 <= i < |s.docs| ==> s.docs[i].id in s.index && s.index[s.docs[i].id] == i)
    && (forall id :: id in s.index ==> s.index[id] < |s.docs| && s.docs[s.index[id]].id == id)
  }

  /** What the store holds: the documents not marked deleted, by id. */
  ghost function Contents(s: State): map<string, Entry>
    requires Sound(s)
  {
    map id | id in s.index && !s.docs[s.index[id]].deleted
      :: Entry(s.docs[s.index[id]].text, s.docs[s.index[id]].embedding)
  }

  function Inserted(s: State, id: string, text: string, embedding: seq<real>): State
    requires id in s.index ==> s.index[id] < |s.docs|
  {
    var doc := Document(id, text, embedding, false);
    if id in s.index then s.(docs := s.docs[s.index[id] := doc])
    else State(s.docs + [doc], s.index[id := |s.docs|])
  }

  function Removed(s: State, id: string): State
    requires id in s.index ==> s.index[id] < |s.docs|
  {
    if id in s.index then
      var i := s.index[id];
      s.(docs := s.docs[i := s.docs[i].(deleted := true)])
    else s
  }

  function Live(docs: seq<Document>): seq<Document> {
    if docs == [] then []
    else
      var last := docs[|docs| - 1];
      Live(docs[..|docs| - 1]) + if last.deleted then [] else [last]
  }

  function IndexOf(docs: seq<Document>): map<string, nat> {
    if docs == [] then map[]
    else IndexOf(docs[..|docs| - 1])[docs[|docs| - 1].id := |docs| - 1]
  }

  function Compacted(s: State): State {
    State(Live(s.docs), IndexOf(Live(s.docs)))
  }

  ghost predicate Distinct(docs: seq<Document>) {
    forall i, j :: 0 <= i < j < |docs| ==> docs[i].id != docs[j].id
  }

  lemma {:induction false} LiveIn(docs: seq<Document>, d: Document)
    ensures d in Live(docs) <==> d in docs && !d.deleted
  {
    if docs != [] {
      LiveIn(docs[..|docs| - 1], d);
      assert docs == docs[..|docs| - 1] + [docs[|docs| - 1]];
    }
  }

  lemma {:induction false} LiveDistinct(docs: seq<Document>)
    requires Distinct(docs)
    ensures Distinct(Live(docs))
  {
    if docs != [] {
      var rest := docs[..|docs| - 1];
      LiveDistinct(rest);
      forall d | d in Live(rest) ensures d.id != docs[|docs| - 1].id {
        LiveIn(rest, d);
      }
      assert forall i :: 0 <= i < |Live(rest)| ==> Live(rest)[i] in Live(rest);
    }
  }

  lemma {:induction false} IndexInverse(docs: seq<Document>)
    requires Distinct(docs)
    ensures Sound(State(docs, IndexOf(docs)))
  {
    if docs != [] {
      IndexInverse(docs[..|docs| - 1]);
    }
  }

  /** A document is live under its id exactly when it is in the contents. */
  lemma ContentsIs(s: State, d: Document)
    requires Sound(s) && !d.deleted
    ensures d in s.docs <==> d.id in Contents(s) && Contents(s)[d.id] == Entry(d.text, d.embedding)
  {
    if d.id in Contents(s) && Contents(s)[d.id] == Entry(d.text, d.embedding) {
      assert s.docs[s.index[d.id]] == d;
    }
  }

  lemma InsertKeeps(s: State, id: string, text: string, embedding: seq<real>)
    requires Sound(s)
    ensures Sound(Inserted(s, id, text, embedding))
    ensures Contents(Inserted(s, id, text, embedding)) == Contents(s)[id := Entry(text, embedding)]
  {
    var t := Inserted(s, id, text, embedding);
    assert Sound(t) by {
      assert forall i :: 0 <= i < |s.docs| && id !in s.index ==> s.docs[i].id != id;
    }
    assert Contents(t) == Contents(s)[id := Entry(text, embedding)];
  }

  lemma RemoveKeeps(s: State, id: string)
    requires Sound(s)
    ensures Sound(Removed(s, id))
    ensures Contents(Removed(s, id)) == Contents(s) - {id}
  {
  }

  lemma SoundIsDistinct(s: State)
    requires Sound(s)
    ensures Distinct(s.docs)
  {
    forall i, j | 0 <= i < j < |s.docs| ensures s.docs[i].id != s.docs[j].id {
      assert s.index[s.docs[i].id] == i;
    }
  }

  lemma CompactKeeps(s: State)
    requires Sound(s)
    ensures Sound(Compacted(s))
    ensures Contents(Compacted(s)) == Contents(s)
    ensures Live(Compacted(s).docs) == Live(s.docs) == Compacted(s).docs
  {
    hide Live, IndexOf;
    SoundIsDistinct(s);
    LiveDistinct(s.docs);
    IndexInverse(Live(s.docs));
    LiveTwice(s.docs);
    forall d ensures d in Live(s.docs) <==> d in s.docs && !d.deleted {
      LiveIn(s.docs, d);
    }
    SameContents(s, Compacted(s));
  }

  /** Contents depend only on which live documents there are. */
  lemma SameContents(s: State, c: State)
    requires Sound(s) && Sound(c)
    requires forall d: Document :: !d.deleted ==> (d in c.docs <==> d in s.docs)
    ensures Contents(c) == Contents(s)
  {
    forall id: string
      ensures id in Contents(c) <==> id in Contents(s)
      ensures id in Contents(s) ==> Contents(c)[id] == Contents(s)[id]
    {
      hide Sound;
      if id in Contents(c) {
        IsLive(c, id);
        ContentsIs(s, c.docs[c.index[id]]);
      }
      if id in Contents(s) {
        IsLive(s, id);
        ContentsIs(c, s.docs[s.index[id]]);
      }
    }
  }

  lemma IsLive(s: State, id: string)
    requires Sound(s) && id in Contents(s)
    ensures id in s.index && s.index[id] < |s.docs|
    ensures var d := s.docs[s.index[id]];
      d in s.docs && d.id == id && !d.deleted && Contents(s)[id] == Entry(d.text, d.embedding)
  {
  }

  lemma {:induction false} LiveTwice(docs: seq<Document>)
    ensures Live(Live(docs)) == Live(docs)
  {
    if docs != [] {
      var rest, last := docs[..|docs| - 1], docs[|docs| - 1];
      LiveTwice(rest);
      if !last.deleted {
        assert (Live(rest) + [last])[..|Live(rest)|] == Live(rest);
        assert Live(Live(rest) + [last]) == Live(Live(rest)) + [last];
      } else {
        assert Live(docs) == Live(rest);
      }
    }
  }

  // ---------------------------------------------------------------- runs

  datatype Op =
    | Insert(id: string, text: string, embedding: seq<real>)
    | Remove(id: string)
    | Compact

  function Step(s: State, op: Op): State
    requires op.Insert? && op.id in s.index ==> s.index[op.id] < |s.docs|
    requires op.Remove? && op.id in s.index ==> s.index[op.id] < |s.docs|
  {
    match op
    case Insert(id, text, embedding) => Inserted(s, id, text, embedding)
    case Remove(id) => Removed(s, id)
    case Compact => Compacted(s)
  }

  /** The same operation on a plain map from ids to entries. */
  function MapStep(m: map<string, Entry>, op: Op): map<string, Entry> {
    match op
    case Insert(id, text, embedding) => m[id := Entry(text, embedding)]
    case Remove(id) => m - {id}
    case Compact => m
  }

  lemma StepKeeps(s: State, op: Op)
    requires Sound(s)
    ensures Sound(Step(s, op)) && Contents(Step(s, op)) == MapStep(Contents(s), op)
  {
    match op
    case Insert(id, text, embedding) => InsertKeeps(s, id, text, embedding);
    case Remove(id) => RemoveKeeps(s, id);
    case Compact => CompactKeeps(s);
  }

  ghost function Run(s: State, ops: seq<Op>): (r: State)
    requires Sound(s)
    ensures Sound(r)
    decreases |ops|
  {
    if ops == [] then s
    else
      StepKeeps(s, ops[0]);
      Run(Step(s, ops[0]), ops[1..])
  }

  function MapRun(m: map<string, Entry>, ops: seq<Op>): map<string, Entry>
    decreases |ops|
  {
    if ops == [] then m else MapRun(MapStep(m, ops[0]), ops[1..])
  }

  /** Every run refines the run of a plain map. */
  lemma {:induction false} RunRefines(s: State, ops: seq<Op>)
    requires Sound(s)
    ensures Contents(Run(s, ops)) == MapRun(Contents(s), ops)
    decreases |ops|
  {
    if ops != [] {
      StepKeeps(s, ops[0]);
      RunRefines(Step(s, ops[0]), ops[1..]);
    }
  }

  // ---------------------------------------------------------------- what compaction hides

  lemma LiveNone()
    ensures Live([]) == []
  {
  }

  lemma LiveLast(docs: seq<Document>, d: Document)
    ensures Live(docs + [d]) == Live(docs) + if d.deleted then [] else [d]
  {
    assert (docs + [d])[..|docs|] == docs;
  }

  lemma {:induction false} LiveConcat(a: seq<Document>, b: seq<Document>)
    ensures Live(a + b) == Live(a) + Live(b)
  {
    hide Live;
    if b == [] {
      LiveNone();
      assert a + b == a;
    } else {
      var rest, d := b[..|b| - 1], b[|b| - 1];
      LiveConcat(a, rest);
      assert b == rest + [d] && a + b == a + rest + [d];
      LiveLast(rest, d);
      LiveLast(a + rest, d);
    }
  }

  lemma LiveAround(docs: seq<Document>, i: nat)
    requires i < |docs|
    ensures Live(docs) == Live(docs[..i]) + (if docs[i].deleted then [] else [docs[i]]) + Live(docs[i + 1..])
  {
    hide Live;
    SplitAround(docs, i);
    LiveConcat(docs[..i] + [docs[i]], docs[i + 1..]);
    LiveConcat(docs[..i], [docs[i]]);
    LiveOne(docs[i]);
  }

  lemma SplitAround(docs: seq<Document>, i: nat)
    requires i < |docs|
    ensures docs == docs[..i] + [docs[i]] + docs[i + 1..]
  {
  }

  lemma LiveOne(d: Document)
    ensures Live([d]) == if d.deleted then [] else [d]
  {
    assert [d][..0] == [];
  }

  function Replaced(live: seq<Document>, doc: Document): (r: seq<Document>)
    ensures |r| == |live|
    ensures forall i :: 0 <= i < |live| ==> r[i] == if live[i].id == doc.id then doc else live[i]
  {
    seq(|live|, i requires 0 <= i < |live| => if live[i].id == doc.id then doc else live[i])
  }

  function Without(live: seq<Document>, id: string): seq<Document> {
    if live == [] then []
    else
      var last := live[|live| - 1];
      Without(live[..|live| - 1], id) + if last.id == id then [] else [last]
  }

  predicate Holds(live: seq<Document>, id: string) {
    exists i :: 0 <= i < |live| && live[i].id == id
  }

  lemma {:induction false} WithoutAbsent(live: seq<Document>, id: string)
    requires !Holds(live, id)
    ensures Without(live, id) == live
  {
    if live != [] {
      WithoutAbsent(live[..|live| - 1], id);
    }
  }

  lemma {:induction false} WithoutConcat(a: seq<Document>, b: seq<Document>, id: string)
    ensures Without(a + b, id) == Without(a, id) + Without(b, id)
  {
    if b == [] {
      assert a + b == a;
    } else {
      WithoutConcat(a, b[..|b| - 1], id);
      assert (a + b)[..|a + b| - 1] == a + b[..|b| - 1] && (a + b)[|a + b| - 1] == b[|b| - 1];
    }
  }

  /** An operation on the live documents alone. */
  function LiveStep(live: seq<Document>, op: Op): seq<Document> {
    match op
    case Insert(id, text, embedding) =>
      var doc := Document(id, text, embedding, false);
      if Holds(live, id) then Replaced(live, doc) else live + [doc]
    case Remove(id) => Without(live, id)
    case Compact => live
  }

  lemma HoldsIff(s: State, id: string)
    requires Sound(s)
    ensures Holds(Live(s.docs), id) <==> id in Contents(s)
  {
    if Holds(Live(s.docs), id) {
      var i :| 0 <= i < |Live(s.docs)| && Live(s.docs)[i].id == id;
      LiveIn(s.docs, Live(s.docs)[i]);
      ContentsIs(s, Live(s.docs)[i]);
    }
    if id in Contents(s) {
      IsLive(s, id);
      LiveIn(s.docs, s.docs[s.index[id]]);
    }
  }

  /** Documents on either side of position i have another id. */
  lemma OthersDiffer(docs: seq<Document>, i: nat)
    requires Distinct(docs) && i < |docs|
    ensures !Holds(Live(docs[..i]), docs[i].id) && !Holds(Live(docs[i + 1..]), docs[i].id)
  {
    var left, right := docs[..i], docs[i + 1..];
    forall j | 0 <= j < |Live(left)| ensures Live(left)[j].id != docs[i].id {
      LiveIn(left, Live(left)[j]);
    }
    forall j | 0 <= j < |Live(right)| ensures Live(right)[j].id != docs[i].id {
      LiveIn(right, Live(right)[j]);
      var at :| 0 <= at < |right| && right[at] == Live(right)[j];
      assert docs[i + 1 + at] == right[at];
    }
  }

  /** Around a changed position nothing else changes. */
  lemma LiveChanged(docs: seq<Document>, i: nat, doc: Document)
    requires i < |docs|
    ensures Live(docs[i := doc]) == Live(docs[..i]) + (if doc.deleted then [] else [doc]) + Live(docs[i + 1..])
  {
    hide Live;
    LiveAround(docs[i := doc], i);
    assert docs[i := doc][..i] == docs[..i] && docs[i := doc][i + 1..] == docs[i + 1..];
  }

  lemma LiveReplaced(docs: seq<Document>, i: nat, doc: Document)
    requires Distinct(docs) && i < |docs| && doc.id == docs[i].id && !doc.deleted && !docs[i].deleted
    ensures Live(docs[i := doc]) == Replaced(Live(docs), doc)
  {
    hide Live, Distinct;
    OthersDiffer(docs, i);
    LiveAround(docs, i);
    LiveChanged(docs, i, doc);
    ReplacedMiddle(Live(docs[..i]), docs[i], Live(docs[i + 1..]), doc);
  }

  lemma ReplacedMiddle(left: seq<Document>, was: Document, right: seq<Document>, doc: Document)
    requires was.id == doc.id && !Holds(left, doc.id) && !Holds(right, doc.id)
    ensures Replaced(left + [was] + right, doc) == left + [doc] + right
  {
  }

  lemma LiveMarked(docs: seq<Document>, i: nat, doc: Document)
    requires Distinct(docs) && i < |docs| && doc.deleted && !docs[i].deleted
    ensures Live(docs[i := doc]) == Without(Live(docs), docs[i].id)
  {
    hide Live, Distinct;
    OthersDiffer(docs, i);
    LiveAround(docs, i);
    LiveChanged(docs, i, doc);
    WithoutMiddle(Live(docs[..i]), docs[i], Live(docs[i + 1..]));
  }

  lemma WithoutMiddle(left: seq<Document>, d: Document, right: seq<Document>)
    requires !Holds(left, d.id) && !Holds(right, d.id)
    ensures Without(left + [d] + right, d.id) == left + [] + right
  {
    WithoutConcat(left + [d], right, d.id);
    WithoutConcat(left, [d], d.id);
    WithoutAbsent(left, d.id);
    WithoutAbsent(right, d.id);
    assert [d][..0] == [];
  }

  lemma LiveInsert(s: State, id: string, text: string, embedding: seq<real>)
    requires Sound(s) && (id in s.index ==> !s.docs[s.index[id]].deleted)
    ensures Live(Inserted(s, id, text, embedding).docs) == LiveStep(Live(s.docs), Insert(id, text, embedding))
  {
    hide Live;
    var doc := Document(id, text, embedding, false);
    HoldsIff(s, id);
    if id in s.index {
      SoundIsDistinct(s);
      LiveReplaced(s.docs, s.index[id], doc);
    } else {
      LiveConcat(s.docs, [doc]);
      LiveOne(doc);
    }
  }

  lemma LiveRemove(s: State, id: string)
    requires Sound(s)
    ensures Live(Removed(s, id).docs) == Without(Live(s.docs), id)
  {
    hide Live, Without;
    HoldsIff(s, id);
    if id in Contents(s) {
      var i := s.index[id];
      SoundIsDistinct(s);
      LiveMarked(s.docs, i, s.docs[i].(deleted := true));
    } else {
      WithoutAbsent(Live(s.docs), id);
      if id in s.index {
        assert Removed(s, id).docs == s.docs;
      }
    }
  }

  /** The operation would bring a removed document back to its old place. */
  predicate Revives(s: State, op: Op) {
    op.Insert? && op.id in s.index && s.index[op.id] < |s.docs| && s.docs[s.index[op.id]].deleted
  }

  lemma LiveStepIs(s: State, op: Op)
    requires Sound(s) && !Revives(s, op)
    ensures Live(Step(s, op).docs) == LiveStep(Live(s.docs), op)
  {
    match op
    case Insert(id, text, embedding) => LiveInsert(s, id, text, embedding);
    case Remove(id) => LiveRemove(s, id);
    case Compact => CompactKeeps(s);
  }

  ghost predicate NeverRevives(s: State, ops: seq<Op>)
    requires Sound(s)
    decreases |ops|
  {
    ops == [] ||
    (!Revives(s, ops[0]) && (StepKeeps(s, ops[0]); NeverRevives(Step(s, ops[0]), ops[1..])))
  }

  /** Two stores with the same live sequence, the second with fewer tombstones, stay so. */
  lemma {:induction false} SameLiveRun(s: State, c: State, ops: seq<Op>)
    requires Sound(s) && Sound(c) && Live(s.docs) == Live(c.docs) && c.index.Keys <= s.index.Keys
    requires NeverRevives(s, ops)
    ensures Live(Run(s, ops).docs) == Live(Run(c, ops).docs)
    decreases |ops|
  {
    if ops != [] {
      var op := ops[0];
      StepKeeps(s, op);
      StepKeeps(c, op);
      StepKeepsFewer(s, c, op);
      SameLiveRun(Step(s, op), Step(c, op), ops[1..]);
    }
  }

  lemma StepKeepsFewer(s: State, c: State, op: Op)
    requires Sound(s) && Sound(c) && Live(s.docs) == Live(c.docs) && c.index.Keys <= s.index.Keys
    requires !Revives(s, op)
    ensures Live(Step(s, op).docs) == Live(Step(c, op).docs)
    ensures Step(c, op).index.Keys <= Step(s, op).index.Keys
  {
    hide Live;
    if op.Insert? {
      HoldsIff(s, op.id);
      HoldsIff(c, op.id);
    }
    LiveStepIs(s, op);
    LiveStepIs(c, op);
  }

  /** No run can tell whether the store was compacted before it, unless it re-inserts an id
      that was removed and not yet purged: the live documents come in the same order. */
  lemma CompactionInvisible(s: State, ops: seq<Op>)
    requires Sound(s) && NeverRevives(s, ops)
    ensures Sound(Compacted(s))
    ensures Live(Run(Compacted(s), ops).docs) == Live(Run(s, ops).docs)
  {
    CompactKeeps(s);
    var c := Compacted(s);
    forall id | id in c.index ensures id in s.index {
      LiveIn(s.docs, c.docs[c.index[id]]);
    }
    SameLiveRun(s, c, ops);
  }

  /** Such a re-insertion keeps the order exactly when nothing live follows the tombstone. */
  lemma RevivalOrderIff(s: State, id: string, text: string, embedding: seq<real>)
    requires Sound(s) && Revives(s, Insert(id, text, embedding))
    ensures Sound(Compacted(s))
    ensures Live(Inserted(Compacted(s), id, text, embedding).docs) == Live(Inserted(s, id, text, embedding).docs)
      <==> Live(s.docs[s.index[id] + 1..]) == []
  {
    hide Live, Sound, Contents;
    CompactKeeps(s);
    var doc, i := Document(id, text, embedding, false), s.index[id];
    RevivedLive(s, id, text, embedding);
    LiveInsertFresh(Compacted(s), id, text, embedding);
    MovesIff(Live(s.docs[..i]), doc, Live(s.docs[i + 1..]));
  }

  lemma MovesIff(left: seq<Document>, doc: Document, right: seq<Document>)
    requires !Holds(right, doc.id)
    ensures left + right + [doc] == left + [doc] + right <==> right == []
  {
    assert (left + [doc] + right)[|left|] == doc;
    if right != [] {
      assert (left + right + [doc])[|left|] == right[0];
    } else {
      assert left + [doc] + right == left + right + [doc];
    }
  }

  /** Around a tombstone: the live documents before and after its revival. */
  lemma RevivedLive(s: State, id: string, text: string, embedding: seq<real>)
    requires Sound(s) && Revives(s, Insert(id, text, embedding))
    ensures id !in Contents(s)
    ensures !Holds(Live(s.docs[s.index[id] + 1..]), id)
    ensures Live(s.docs) == Live(s.docs[..s.index[id]]) + Live(s.docs[s.index[id] + 1..])
    ensures Live(Inserted(s, id, text, embedding).docs)
         == Live(s.docs[..s.index[id]]) + [Document(id, text, embedding, false)] + Live(s.docs[s.index[id] + 1..])
  {
    hide Live;
    var i := s.index[id];
    SoundIsDistinct(s);
    OthersDiffer(s.docs, i);
    LiveAround(s.docs, i);
    LiveChanged(s.docs, i, Document(id, text, embedding, false));
  }

  lemma LiveInsertFresh(c: State, id: string, text: string, embedding: seq<real>)
    requires Sound(c) && id !in Contents(c) && c.docs == Live(c.docs)
    ensures Live(Inserted(c, id, text, embedding).docs) == Live(c.docs) + [Document(id, text, embedding, false)]
  {
    if id in c.index {
      LiveIn(c.docs, c.docs[c.index[id]]);
      assert false;
    }
    HoldsIff(c, id);
    LiveInsert(c, id, text, embedding);
  }

  /** After this run the live documents come in the same order, compacted before it or not. */
  ghost predicate SameOrder(s: State, ops: seq<Op>)
    requires Sound(s)
  {
    CompactKeeps(s);
    Live(Run(Compacted(s), ops).docs) == Live(Run(s, ops).docs)
  }

  ghost predicate HasTombstone(s: State) {
    exists i :: 0 <= i < |s.docs| && s.docs[i].deleted
  }

  /** No run at all can tell whether the store was compacted before it, if and only if there was
      nothing to compact. */
  lemma CompactionInvisibleIff(s: State)
    requires Sound(s)
    ensures (forall ops :: SameOrder(s, ops)) <==> !HasTombstone(s)
  {
    if HasTombstone(s) {
      var i :| 0 <= i < |s.docs| && s.docs[i].deleted;
      TombstoneTells(s, i);
    } else {
      CompactKeeps(s);
      NothingToCompact(s);
    }
  }

  lemma NothingToCompact(s: State)
    requires Sound(s) && !HasTombstone(s)
    ensures Compacted(s) == s
  {
    AllLive(s.docs);
    SoundIsDistinct(s);
    IndexInverse(s.docs);
    OneIndex(s, State(s.docs, IndexOf(s.docs)));
  }

  /** The documents determine the index. */
  lemma OneIndex(s: State, c: State)
    requires Sound(s) && Sound(c) && s.docs == c.docs
    ensures s == c
  {
    forall id: string
      ensures id in s.index <==> id in c.index
      ensures id in s.index ==> s.index[id] == c.index[id]
    {
      if id in s.index {
        assert s.docs[s.index[id]].id == id;
      }
      if id in c.index {
        assert c.docs[c.index[id]].id == id;
      }
    }
    assert s.index == c.index;
  }

  lemma {:induction false} AllLive(docs: seq<Document>)
    requires forall i :: 0 <= i < |docs| ==> !docs[i].deleted
    ensures Live(docs) == docs
  {
    if docs != [] {
      AllLive(docs[..|docs| - 1]);
    }
  }

  /** A string longer than every id. */
  function FreshId(docs: seq<Document>): (id: string)
    ensures forall i :: 0 <= i < |docs| ==> |docs[i].id| < |id|
  {
    if docs == [] then "a"
    else
      var rest, last := FreshId(docs[..|docs| - 1]), docs[|docs| - 1].id;
      if |last| < |rest| then rest else last + "a"
  }

  /** The run that tells: a new document, and then the removed one again. */
  lemma TombstoneTells(s: State, i: nat)
    requires Sound(s) && i < |s.docs| && s.docs[i].deleted
    ensures !SameOrder(s, [Insert(FreshId(s.docs), "", []), Insert(s.docs[i].id, "", [])])
  {
    hide Live, IndexOf, Contents;
    var id, newId := s.docs[i].id, FreshId(s.docs);
    var doc, added := Document(id, "", [], false), Document(newId, "", [], false);
    CompactKeeps(s);
    var c := Compacted(s);
    assert newId !in s.index && s.index[id] == i && newId != id;
    CompactedIds(s, id);
    CompactedIds(s, newId);
    var s1, c1 := Inserted(s, newId, "", []), Inserted(c, newId, "", []);
    InsertKeeps(s, newId, "", []);
    InsertKeeps(c, newId, "", []);
    LiveConcat(s.docs, [added]);
    LiveConcat(c.docs, [added]);
    LiveOne(added);
    assert c1.docs == Live(c1.docs) == Live(s1.docs);
    RevivedLive(s1, id, "", []);
    assert id !in Contents(c1) by {
      assert Contents(c1) == Contents(s1);
    }
    LiveInsertFresh(c1, id, "", []);
    NewIsLast(s.docs, i, added);
    MovesIff(Live(s1.docs[..i]), doc, Live(s1.docs[i + 1..]));
    RunTwo(s, Insert(newId, "", []), Insert(id, "", []));
    RunTwo(c, Insert(newId, "", []), Insert(id, "", []));
  }

  lemma CompactedIds(s: State, id: string)
    requires Sound(s) && (id in s.index ==> s.docs[s.index[id]].deleted)
    ensures Sound(Compacted(s)) && id !in Compacted(s).index
  {
    CompactKeeps(s);
    var c := Compacted(s);
    if id in c.index {
      LiveIn(s.docs, c.docs[c.index[id]]);
      assert false;
    }
  }

  lemma NewIsLast(docs: seq<Document>, i: nat, d: Document)
    requires i < |docs| && !d.deleted
    ensures Live((docs + [d])[i + 1..]) != []
  {
    hide Live;
    assert (docs + [d])[i + 1..] == docs[i + 1..] + [d];
    LiveConcat(docs[i + 1..], [d]);
    LiveOne(d);
  }

  lemma RunTwo(s: State, a: Op, b: Op)
    requires Sound(s)
    ensures Sound(Step(s, a)) && Run(s, [a, b]) == Step(Step(s, a), b)
  {
    StepKeeps(s, a);
    StepKeeps(Step(s, a), b);
    assert [a, b][1..] == [b] && [b][1..] == [];
    assert Run(Step(s, a), [b]) == Step(Step(s, a), b);
  }

  // ---------------------------------------------------------------- search

  function Score(sqrt: real -> real, query: seq<real>, doc: Document): Match
    requires |doc.embedding| == |query|
  {
    Match(doc.id, doc.text, Cosine(sqrt, query, doc.embedding))
  }

  predicate Matches(query: seq<real>, doc: Document) {
    !doc.deleted && |doc.embedding| == |query|
  }

  /** The scored documents a search ranks, in storage order. */
  function Candidates(sqrt: real -> real, query: seq<real>, docs: seq<Document>): seq<Match> {
    if docs == [] then []
    else
      var last := docs[|docs| - 1];
      Candidates(sqrt, query, docs[..|docs| - 1]) + if Matches(query, last) then [Score(sqrt, query, last)] else []
  }

  /** A search sees only the live documents, so what leaves them alone leaves it alone. */
  lemma {:induction false} CandidatesOfLive(sqrt: real -> real, query: seq<real>, docs: seq<Document>)
    ensures Candidates(sqrt, query, docs) == Candidates(sqrt, query, Live(docs))
  {
    if docs != [] {
      var rest, last := docs[..|docs| - 1], docs[|docs| - 1];
      CandidatesOfLive(sqrt, query, rest);
      if !last.deleted {
        assert (Live(rest) + [last])[..|Live(rest)|] == Live(rest);
      } else {
        assert Live(docs) == Live(rest);
      }
    }
  }

  /** Every later search ranks the same candidates in the same order, compacted or not. */
  lemma CompactionInvisibleToSearch(sqrt: real -> real, query: seq<real>, s: State, ops: seq<Op>)
    requires Sound(s) && NeverRevives(s, ops)
    ensures Sound(Compacted(s))
    ensures Candidates(sqrt, query, Run(Compacted(s), ops).docs) == Candidates(sqrt, query, Run(s, ops).docs)
  {
    CompactionInvisible(s, ops);
    CandidatesOfLive(sqrt, query, Run(s, ops).docs);
    CandidatesOfLive(sqrt, query, Run(Compacted(s), ops).docs);
  }

  lemma {:induction false} CandidateIn(sqrt: real -> real, query: seq<real>, docs: seq<Document>, m: Match)
    ensures m in Candidates(sqrt, query, docs)
      <==> exists d :: d in docs && Matches(query, d) && m == Score(sqrt, query, d)
  {
    if docs != [] {
      var rest, last := docs[..|docs| - 1], docs[|docs| - 1];
      CandidateIn(sqrt, query, rest, m);
      assert docs == rest + [last];
      if Matches(query, last) && m == Score(sqrt, query, last) {
        assert last in docs;
      }
      if d :| d in docs && Matches(query, d) && m == Score(sqrt, query, d) {
        assert d == last || d in rest;
      }
    }
  }

  /** The candidates are exactly the entries of the abstract map with the right dimension. */
  lemma CandidatesAreContents(sqrt: real -> real, query: seq<real>, s: State, m: Match)
    requires Sound(s)
    ensures m in Candidates(sqrt, query, s.docs) <==>
      (m.id in Contents(s) && |Contents(s)[m.id].embedding| == |query|
       && m == Match(m.id, Contents(s)[m.id].text, Cosine(sqrt, query, Contents(s)[m.id].embedding)))
  {
    CandidateIn(sqrt, query, s.docs, m);
    if m in Candidates(sqrt, query, s.docs) {
      var d :| d in s.docs && Matches(query, d) && m == Score(sqrt, query, d);
      ContentsIs(s, d);
    }
    if m.id in Contents(s) && |Contents(s)[m.id].embedding| == |query|
       && m == Match(m.id, Contents(s)[m.id].text, Cosine(sqrt, query, Contents(s)[m.id].embedding)) {
      IsLive(s, m.id);
      var d := s.docs[s.index[m.id]];
      assert Matches(query, d) && m == Score(sqrt, query, d);
    }
  }

  ghost predicate Descending(r: seq<Match>) {
    forall i, j :: 0 <= i < j < |r| ==> r[i].similarity >= r[j].similarity
  }

  /** r lists the best `k` candidates: as many as there are up to k, each drawn from c with
      no candidate used twice, best first, and none left out scores better than one listed. */
  ghost predicate IsTopK(c: seq<Match>, r: seq<Match>, k: nat) {
    && |r| == Min(k, |c|)
    && Descending(r)
    && multiset(r) <= multiset(c)
    && forall m, i :: m in multiset(c) - multiset(r) && 0 <= i < |r| ==> r[i].similarity >= m.similarity
  }

  /** The scores of the top k are determined by the candidates, in whatever order they come;
      only ties may differ. */
  lemma ScoresDetermined(c: seq<Match>, r: seq<Match>, c': seq<Match>, r': seq<Match>, k: nat)
    requires IsTopK(c, r, k) && IsTopK(c', r', k) && multiset(c) == multiset(c')
    ensures |r| == |r'| && forall i :: 0 <= i < |r| ==> r[i].similarity == r'[i].similarity
  {
    assert |c| == |multiset(c)| == |multiset(c')| == |c'|;
    assert IsTopK(c, r', k);
    hide IsTopK;
    ListLength(c, r, k);
    ListLength(c, r', k);
    forall i | 0 <= i < |r| ensures r[i].similarity == r'[i].similarity {
      NotBetter(c, r, r', k, i);
      NotBetter(c, r', r, k, i);
    }
  }

  lemma ListLength(c: seq<Match>, r: seq<Match>, k: nat)
    requires IsTopK(c, r, k)
    ensures |r| == Min(k, |c|)
  {
  }

  lemma NotBetter(c: seq<Match>, r: seq<Match>, r': seq<Match>, k: nat, i: nat)
    requires IsTopK(c, r, k) && IsTopK(c, r', k) && i < |r|
    ensures r[i].similarity <= r'[i].similarity
  {
    if r[i].similarity > r'[i].similarity {
      var ahead, ahead' := multiset(r[..i + 1]), multiset(r'[..i]);
      forall m ensures ahead[m] <= ahead'[m] {
        if m in ahead {
          hide IsTopK;
          assert m in r[..i + 1];
          CountAhead(c, r, r', k, i, m);
        }
      }
      SubBagSize(ahead, ahead');
      assert false;
    }
  }

  /** A match listed by r ahead of the i-th of r' is listed by r' before it as often. */
  lemma CountAhead(c: seq<Match>, r: seq<Match>, r': seq<Match>, k: nat, i: nat, m: Match)
    requires IsTopK(c, r, k) && IsTopK(c, r', k) && i < |r| == |r'|
    requires m in r[..i + 1] && r[i].similarity > r'[i].similarity
    ensures multiset(r[..i + 1])[m] <= multiset(r'[..i])[m]
  {
    hide IsTopK;
    Drawn(c, r, k, i, m);
    Kept(c, r', k, i, m);
    CountSplit(r, i + 1, m);
  }

  lemma Drawn(c: seq<Match>, r: seq<Match>, k: nat, i: nat, m: Match)
    requires IsTopK(c, r, k) && i < |r| && m in r[..i + 1]
    ensures m.similarity >= r[i].similarity && multiset(r)[m] <= multiset(c)[m]
  {
  }

  /** What scores better than the i-th match is listed before it as often as it occurs. */
  lemma Kept(c: seq<Match>, r: seq<Match>, k: nat, i: nat, m: Match)
    requires IsTopK(c, r, k) && i < |r| && m.similarity > r[i].similarity
    ensures multiset(c)[m] <= multiset(r[..i])[m]
  {
    assert m !in multiset(c) - multiset(r);
    Behind(r, i, m);
    CountSplit(r, i, m);
  }

  lemma Behind(r: seq<Match>, i: nat, m: Match)
    requires Descending(r) && i < |r| && m.similarity > r[i].similarity
    ensures m !in r[i..]
  {
    forall j | 0 <= j < |r[i..]| ensures r[i..][j] != m {
      assert r[i..][j] == r[i + j];
    }
  }

  lemma CountSplit(r: seq<Match>, i: nat, m: Match)
    requires i <= |r|
    ensures multiset(r)[m] == multiset(r[..i])[m] + multiset(r[i..])[m]
  {
    assert r == r[..i] + r[i..];
  }

  /** std::partial_sort: the best `count` elements first, in order, the others in any order. */
  ghost predicate IsPartialSort(was: seq<Match>, r: seq<Match>, count: nat) {
    && count <= |r| == |was|
    && multiset(r) == multiset(was)
    && forall i, j :: 0 <= i < j < |r| && i < count ==> r[i].similarity >= r[j].similarity
  }

  method PartialSort(was: seq<Match>, count: nat) returns (r: seq<Match>)
    requires count <= |was|
    ensures IsPartialSort(was, r, count)
  {
    r := was;
    for n := 0 to count
      invariant |r| == |was| && IsPartialSort(was, r, n)
    {
      var best := BestFrom(r, n);
      var x, y := r[n], r[best];
      ghost var before := r;
      r := r[n := y][best := x];
      SwapKeeps(before, n, best);
      forall i, j | 0 <= i < j < |r| && i < n + 1
        ensures r[i].similarity >= r[j].similarity
      {
      }
    }
  }

  method BestFrom(r: seq<Match>, n: nat) returns (best: nat)
    requires n < |r|
    ensures n <= best < |r|
    ensures forall j :: n <= j < |r| ==> r[best].similarity >= r[j].similarity
  {
    best := n;
    for i := n to |r|
      invariant n <= best < |r|
      invariant forall j :: n <= j < i ==> r[best].similarity >= r[j].similarity
    {
      if r[i].similarity > r[best].similarity {
        best := i;
      }
    }
  }

  lemma SwapKeeps(r: seq<Match>, i: nat, j: nat)
    requires i <= j < |r|
    ensures multiset(r[i := r[j]][j := r[i]]) == multiset(r)
  {
  }

  lemma PrefixIsTopK(c: seq<Match>, r: seq<Match>, k: nat)
    requires IsPartialSort(c, r, Min(k, |c|))
    ensures IsTopK(c, r[..Min(k, |c|)], k)
  {
    var n := Min(k, |c|);
    var head := r[..n];
    RestOf(r, n);
    forall m, i | m in multiset(c) - multiset(head) && 0 <= i < |head|
      ensures head[i].similarity >= m.similarity
    {
      AheadOfRest(c, r, n, m, i);
    }
  }

  lemma SameLength(was: seq<Match>, r: seq<Match>, count: nat)
    requires IsPartialSort(was, r, count)
    ensures |r| == |was|
  {
  }

  lemma AheadOfRest(c: seq<Match>, r: seq<Match>, n: nat, m: Match, i: nat)
    requires IsPartialSort(c, r, n) && m in multiset(r[n..]) && i < n
    ensures r[i].similarity >= m.similarity
  {
    var at :| 0 <= at < |r[n..]| && r[n..][at] == m;
    assert r[n + at] == m;
  }

  lemma RestOf(r: seq<Match>, n: nat)
    requires n <= |r|
    ensures multiset(r[..n]) <= multiset(r) && multiset(r) - multiset(r[..n]) == multiset(r[n..])
  {
    assert r == r[..n] + r[n..];
  }

  // ---------------------------------------------------------------- the best answer

  /** A document a search can see whose embedding is a positive multiple of the query. */
  ghost predicate Exact(sqrt: real -> real, query: seq<real>, d: Document) {
    Matches(query, d) && Norms(sqrt, query, d.embedding) > 0.00000001 && Aligned(query, d.embedding)
  }

  ghost predicate HoldsExact(sqrt: real -> real, query: seq<real>, docs: seq<Document>) {
    exists d :: d in docs && Exact(sqrt, query, d)
  }

  /** The first answer has score 1 if and only if such a document is stored, and no answer has
      more. */
  lemma BestAnswer(sqrt: real -> real, query: seq<real>, docs: seq<Document>, r: seq<Match>, k: nat)
    requires IsSqrt(sqrt) && k > 0 && IsTopK(Candidates(sqrt, query, docs), r, k)
    ensures r != [] && r[0].similarity == 1.0 <==> HoldsExact(sqrt, query, docs)
    ensures forall i :: 0 <= i < |r| ==> -1.0 <= r[i].similarity <= 1.0
  {
    var c := Candidates(sqrt, query, docs);
    hide IsSqrt, Candidates, Exact;
    forall i | 0 <= i < |r|
      ensures r[i] in c && -1.0 <= r[i].similarity <= 1.0
      ensures r[i].similarity == 1.0 ==> HoldsExact(sqrt, query, docs)
    {
      assert r[i] in multiset(r);
      CandidateScore(sqrt, query, docs, r[i]);
    }
    if HoldsExact(sqrt, query, docs) {
      var d :| d in docs && Exact(sqrt, query, d);
      var m := ExactScore(sqrt, query, docs, d);
      FirstIsBest(c, r, k, m);
    }
  }

  /** A candidate's score is within bounds, and 1 only for such a document. */
  lemma CandidateScore(sqrt: real -> real, query: seq<real>, docs: seq<Document>, m: Match)
    requires IsSqrt(sqrt) && m in Candidates(sqrt, query, docs)
    ensures -1.0 <= m.similarity <= 1.0
    ensures m.similarity == 1.0 ==> HoldsExact(sqrt, query, docs)
  {
    CandidateIn(sqrt, query, docs, m);
    var d :| d in docs && Matches(query, d) && m == Score(sqrt, query, d);
    hide Cosine, Norms, Candidates, Aligned;
    CosineBounded(sqrt, query, d.embedding);
    if Norms(sqrt, query, d.embedding) <= 0.00000001 {
      ShortScoresZero(sqrt, query, d.embedding);
    } else {
      CosineOneIff(sqrt, query, d.embedding);
      assert m.similarity == 1.0 ==> Exact(sqrt, query, d);
    }
  }

  lemma ExactScore(sqrt: real -> real, query: seq<real>, docs: seq<Document>, d: Document) returns (m: Match)
    requires IsSqrt(sqrt) && d in docs && Exact(sqrt, query, d)
    ensures m in Candidates(sqrt, query, docs) && m.similarity == 1.0
  {
    m := Score(sqrt, query, d);
    hide Cosine, Norms, Candidates, Aligned;
    CosineOneIff(sqrt, query, d.embedding);
    CandidateIn(sqrt, query, docs, m);
  }

  /** Vectors too short to compare score 0. */
  lemma ShortScoresZero(sqrt: real -> real, a: seq<real>, b: seq<real>)
    requires |a| == |b| && Norms(sqrt, a, b) <= 0.00000001
    ensures Cosine(sqrt, a, b) == 0.0
  {
  }

  lemma FirstIsBest(c: seq<Match>, r: seq<Match>, k: nat, m: Match)
    requires k > 0 && IsTopK(c, r, k) && m in c
    ensures r != [] && r[0].similarity >= m.similarity
  {
    assert m in multiset(c);
    if m in multiset(r) {
      var i :| 0 <= i < |r| && r[i] == m;
    } else {
      assert m in multiset(c) - multiset(r);
    }
  }

  // ---------------------------------------------------------------- compaction and answers

  lemma {:induction false} CandidateIds(sqrt: real -> real, query: seq<real>, docs: seq<Document>)
    requires Distinct(docs)
    ensures var c := Candidates(sqrt, query, docs);
      forall i, j :: 0 <= i < j < |c| ==> c[i].id != c[j].id
  {
    if docs != [] {
      var rest, last := docs[..|docs| - 1], docs[|docs| - 1];
      var c := Candidates(sqrt, query, rest);
      CandidateIds(sqrt, query, rest);
      forall i | 0 <= i < |c| ensures c[i].id != last.id {
        CandidateIn(sqrt, query, rest, c[i]);
      }
    }
  }

  lemma {:induction false} CountsOnce(c: seq<Match>, m: Match)
    requires forall i, j :: 0 <= i < j < |c| ==> c[i].id != c[j].id
    ensures multiset(c)[m] == if m in c then 1 else 0
  {
    if c != [] {
      var rest, last := c[..|c| - 1], c[|c| - 1];
      CountsOnce(rest, m);
      assert c == rest + [last];
    }
  }

  /** Stores with the same contents offer a search the same candidates, each once. */
  lemma SameCandidates(sqrt: real -> real, query: seq<real>, s: State, c: State)
    requires Sound(s) && Sound(c) && Contents(s) == Contents(c)
    ensures multiset(Candidates(sqrt, query, s.docs)) == multiset(Candidates(sqrt, query, c.docs))
  {
    var a, b := Candidates(sqrt, query, s.docs), Candidates(sqrt, query, c.docs);
    SoundIsDistinct(s);
    SoundIsDistinct(c);
    CandidateIds(sqrt, query, s.docs);
    CandidateIds(sqrt, query, c.docs);
    hide Sound, Contents, Candidates, Cosine;
    forall m ensures multiset(a)[m] == multiset(b)[m] {
      CandidatesAreContents(sqrt, query, s, m);
      CandidatesAreContents(sqrt, query, c, m);
      CountsOnce(a, m);
      CountsOnce(b, m);
    }
  }

  /** After any run at all, a store compacted before it offers every search the same
      candidates: no run can tell more than their order. */
  lemma CompactionKeepsCandidates(sqrt: real -> real, query: seq<real>, s: State, ops: seq<Op>)
    requires Sound(s)
    ensures Sound(Compacted(s))
    ensures multiset(Candidates(sqrt, query, Run(Compacted(s), ops).docs))
         == multiset(Candidates(sqrt, query, Run(s, ops).docs))
  {
    CompactKeeps(s);
    RunRefines(s, ops);
    RunRefines(Compacted(s), ops);
    SameCandidates(sqrt, query, Run(Compacted(s), ops), Run(s, ops));
  }

  /** So at every rank its answers have the same score. */
  lemma CompactionKeepsScores(sqrt: real -> real, query: seq<real>, s: State, ops: seq<Op>,
                              r: seq<Match>, r': seq<Match>, k: nat)
    requires Sound(s) && IsTopK(Candidates(sqrt, query, Run(s, ops).docs), r, k)
    requires Sound(Compacted(s)) && IsTopK(Candidates(sqrt, query, Run(Compacted(s), ops).docs), r', k)
    ensures |r| == |r'| && forall i :: 0 <= i < |r| ==> r[i].similarity == r'[i].similarity
  {
    CompactionKeepsCandidates(sqrt, query, s, ops);
    ScoresDetermined(Candidates(sqrt, query, Run(s, ops).docs), r,
                     Candidates(sqrt, query, Run(Compacted(s), ops).docs), r', k);
  }

  /** A store of two documents of which the first is removed. */
  function RemovedFirst(embedding: seq<real>): State {
    State([Document("a", "", embedding, true), Document("b", "", embedding, false)], map["a" := 0, "b" := 1])
  }

  /** Inserting "a" again puts it before "b", or behind it if the store was compacted. */
  lemma RevivalChangesOrder(embedding: seq<real>)
    ensures var s, ops := RemovedFirst(embedding), [Insert("a", "", embedding)];
      var a, b := Document("a", "", embedding, false), Document("b", "", embedding, false);
      && Sound(s) && Sound(Compacted(s))
      && Live(Run(s, ops).docs) == [a, b] && Live(Run(Compacted(s), ops).docs) == [b, a]
  {
    RemovedFirstIs(embedding);
    hide RemovedFirst;
    var s := RemovedFirst(embedding);
    var was := Document("a", "", embedding, true);
    var a, b := was.(deleted := false), Document("b", "", embedding, false);
    LiveTwo(was, b);
    LiveTwo(a, b);
    RevivedOrFresh(s, a, b);
  }

  /** A removed document inserted again, in place and after compaction. */
  lemma RevivedOrFresh(s: State, a: Document, b: Document)
    requires Sound(s) && a.id !in Contents(s) && !a.deleted && Live(s.docs) == [b]
    requires Live(Inserted(s, a.id, a.text, a.embedding).docs) == [a, b]
    ensures Sound(Compacted(s))
    ensures Live(Run(s, [Insert(a.id, a.text, a.embedding)]).docs) == [a, b]
    ensures Live(Run(Compacted(s), [Insert(a.id, a.text, a.embedding)]).docs) == [b, a]
  {
    hide Live, Contents, Run, Sound, Compacted;
    var op := Insert(a.id, a.text, a.embedding);
    CompactKeeps(s);
    RunOne(s, op);
    RunOne(Compacted(s), op);
    LiveInsertFresh(Compacted(s), a.id, a.text, a.embedding);
  }

  lemma RemovedFirstIs(embedding: seq<real>)
    ensures var s := RemovedFirst(embedding);
      && Sound(s) && "a" !in Contents(s)
      && s.docs == [Document("a", "", embedding, true), Document("b", "", embedding, false)]
      && Inserted(s, "a", "", embedding).docs
         == [Document("a", "", embedding, false), Document("b", "", embedding, false)]
  {
    assert "a"[0] != "b"[0];
  }

  lemma RunOne(s: State, op: Op)
    requires Sound(s)
    ensures Run(s, [op]) == Step(s, op)
  {
    StepKeeps(s, op);
    assert [op][1..] == [];
  }

  lemma LiveTwo(d: Document, e: Document)
    ensures Live([d, e]) == (if d.deleted then [] else [d]) + if e.deleted then [] else [e]
  {
    LiveConcat([d], [e]);
    LiveOne(d);
    LiveOne(e);
  }

  // ---------------------------------------------------------------- the class

  /** The loop of `Compact`: the live documents, indexed anew as they are moved. */
  method CollectLive(docs: seq<Document>) returns (active: seq<Document>, index: map<string, nat>)
    ensures active == Live(docs) && index == IndexOf(active)
  {
    active, index := [], map[];
    for i := 0 to |docs|
      invariant active == Live(docs[..i]) && index == IndexOf(active)
    {
      assert docs[..i + 1][..i] == docs[..i];
      if !docs[i].deleted {
        assert (active + [docs[i]])[..|active|] == active;
        index := index[docs[i].id := |active|];
        active := active + [docs[i]];
      }
    }
    assert docs[..|docs|] == docs;
  }

  class FastRetrieveDB {
    const embeddingDim: nat
    var docs: seq<Document>
    var idToIndex: map<string, nat>

    ghost function Stored(): State
      reads this
    {
      State(docs, idToIndex)
    }

    ghost predicate Valid()
      reads this
    {
      Sound(Stored())
    }

    constructor (embeddingDim: nat)
      ensures Valid() && Contents(Stored()) == map[] && this.embeddingDim == embeddingDim
    {
      this.embeddingDim := embeddingDim;
      docs := [];
      idToIndex := map[];
    }

    method Insert(id: string, text: string, embedding: seq<real>)
      requires Valid()
      modifies `docs, `idToIndex
      ensures Valid() && Stored() == Inserted(old(Stored()), id, text, embedding)
      ensures Contents(Stored()) == old(Contents(Stored()))[id := Entry(text, embedding)]
    {
      InsertKeeps(Stored(), id, text, embedding);
      if id in idToIndex {
        var idx := idToIndex[id];
        docs := docs[idx := Document(id, text, embedding, false)];
        return;
      }
      var newIdx := |docs|;
      docs := docs + [Document(id, text, embedding, false)];
      idToIndex := idToIndex[id := newIdx];
    }

    method Remove(id: string)
      requires Valid()
      modifies `docs
      ensures Valid() && Stored() == Removed(old(Stored()), id)
      ensures Contents(Stored()) == old(Contents(Stored())) - {id}
    {
      RemoveKeeps(Stored(), id);
      if id in idToIndex {
        var i := idToIndex[id];
        docs := docs[i := docs[i].(deleted := true)];
      }
    }

    method Compact()
      requires Valid()
      modifies `docs, `idToIndex
      ensures Valid() && Stored() == Compacted(old(Stored()))
      ensures Contents(Stored()) == old(Contents(Stored()))
      ensures forall d :: d in docs ==> !d.deleted
    {
      hide Sound, Contents;
      CompactKeeps(Stored());
      var active, index := CollectLive(docs);
      forall d | d in active ensures !d.deleted {
        LiveIn(docs, d);
      }
      docs, idToIndex := active, index;
    }

    method SearchRag(sqrt: real -> real, query: seq<real>, topK: nat) returns (results: seq<Match>)
      requires Valid()
      ensures |query| != embeddingDim ==> results == []
      ensures |query| == embeddingDim ==> IsTopK(Candidates(sqrt, query, docs), results, topK)
      ensures IsSqrt(sqrt) && |query| == embeddingDim && topK > 0 ==>
        (results != [] && results[0].similarity == 1.0 <==> HoldsExact(sqrt, query, docs))
    {
      results := [];
      if |query| != embeddingDim || |docs| == 0 {
        return;
      }
      for i := 0 to |docs|
        invariant results == Candidates(sqrt, query, docs[..i])
      {
        assert docs[..i + 1][..i] == docs[..i];
        var doc := docs[i];
        if doc.deleted || |doc.embedding| != embeddingDim {
          continue;
        }
        var similarity := CosineSimilarity(sqrt, query, doc.embedding, embeddingDim);
        results := results + [Match(doc.id, doc.text, similarity)];
      }
      assert docs[..|docs|] == docs;
      hide Sound, IsTopK, IsPartialSort, HoldsExact, IsSqrt, Cosine;
      ghost var candidates := results;
      results := PartialSort(results, Min(topK, |results|));
      PrefixIsTopK(candidates, results, topK);
      SameLength(candidates, results, Min(topK, |candidates|));
      if |results| > topK {
        results := results[..topK];
      } else {
        assert results[..|candidates|] == results;
      }
      if IsSqrt(sqrt) && topK > 0 {
        BestAnswer(sqrt, query, docs, results, topK);
      }
    }

    method Size() returns (size: nat)
      ensures size == |docs|
    {
      size := |docs|;
    }

    method ActiveCount() returns (count: nat)
      requires Valid()
      ensures count == |Contents(Stored())|
    {
      count := 0;
      for i := 0 to |docs|
        invariant count == |Live(docs[..i])|
      {
        assert docs[..i + 1][..i] == docs[..i];
        if !docs[i].deleted {
          count := count + 1;
        }
      }
      assert docs[..|docs|] == docs;
      LiveCount(Stored());
    }
  }

  ghost function Ids(docs: seq<Document>): set<string> {
    set i | 0 <= i < |docs| :: docs[i].id
  }

  lemma {:induction false} IdsCount(docs: seq<Document>)
    requires Distinct(docs)
    ensures |Ids(docs)| == |docs|
  {
    if docs != [] {
      var rest, last := docs[..|docs| - 1], docs[|docs| - 1];
      IdsCount(rest);
      assert Ids(docs) == Ids(rest) + {last.id};
    }
  }

  /** There is one live document for each id the store holds. */
  lemma LiveCount(s: State)
    requires Sound(s)
    ensures |Live(s.docs)| == |Contents(s)|
  {
    SoundIsDistinct(s);
    LiveDistinct(s.docs);
    IdsCount(Live(s.docs));
    forall id: string ensures id in Ids(Live(s.docs)) <==> id in Contents(s) {
      HoldsIff(s, id);
    }
    assert Ids(Live(s.docs)) == Contents(s).Keys;
  }
}
