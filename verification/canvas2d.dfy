/**
  Exact-arithmetic model of the pieces of the 2D canvas API the photo booth
  relies on: points, rectangles, and the current transformation matrix that
  `scale` and `translate` post-multiply.
 */
module Canvas2D {

  datatype Point = Point(x: real, y: real)

  /** An axis-aligned rectangle given by its top-left corner and its size. */
  datatype Rect = Rect(x: real, y: real, width: real, height: real)
  {
    predicate Contains(p: Point) {
      x <= p.x <= x + width && y <= p.y <= y + height
    }
  }

  /** The affine map (x, y) |-> (a*x + c*y + e, b*x + d*y + f), in the
      component order the canvas API uses for its transformation matrix. */
  datatype Matrix = Matrix(a: real, b: real, c: real, d: real, e: real, f: real)

  const Identity: Matrix := Matrix(1.0, 0.0, 0.0, 1.0, 0.0, 0.0)

  function Apply(m: Matrix, p: Point): Point {
    Point(m.a * p.x + m.c * p.y + m.e, m.b * p.x + m.d * p.y + m.f)
  }

  /** The matrix product m*n: the map that applies n first, then m. */
  function Multiply(m: Matrix, n: Matrix): Matrix {
    Matrix(m.a * n.a + m.c * n.b,
           m.b * n.a + m.d * n.b,
           m.a * n.c + m.c * n.d,
           m.b * n.c + m.d * n.d,
           m.a * n.e + m.c * n.f + m.e,
           m.b * n.e + m.d * n.f + m.f)
  }

  /** Applying a product is applying its factors in turn, right factor first. */
  lemma ApplyMultiply(m: Matrix, n: Matrix, p: Point)
    ensures Apply(Multiply(m, n), p) == Apply(m, Apply(n, p))
  {
    var q := Apply(n, p);
    var r := Multiply(m, n);
    assert Apply(r, p).x == Apply(m, q).x by {
      Regroup(m.a, m.c, m.e, n.a, n.b, n.c, n.d, n.e, n.f, p.x, p.y);
    }
    assert Apply(r, p).y == Apply(m, q).y by {
      Regroup(m.b, m.d, m.f, n.a, n.b, n.c, n.d, n.e, n.f, p.x, p.y);
    }
  }

  /** One row of the product: the distributive law the composition rests on. */
  lemma Regroup(u: real, v: real, w: real, a: real, b: real, c: real, d: real, e: real, f: real,
                x: real, y: real)
    ensures (u * a + v * b) * x + (u * c + v * d) * y + (u * e + v * f + w)
              == u * (a * x + c * y + e) + v * (b * x + d * y + f) + w
  {
  }

  /** `context.scale(sx, sy)`: the new matrix is the old one times this. */
  function Scale(sx: real, sy: real): Matrix {
    Matrix(sx, 0.0, 0.0, sy, 0.0, 0.0)
  }

  /** `context.translate(tx, ty)`: the new matrix is the old one times this. */
  function Translate(tx: real, ty: real): Matrix {
    Matrix(1.0, 0.0, 0.0, 1.0, tx, ty)
  }
}
