/** The piece catalog: sixteen pieces, each carrying four binary attributes
    taken from the bits of its id (app.js, `pieces`). */
module Pieces {

  /** A piece id, 0..15. */
  type PieceId = i: nat | i < 16

  /** The four attributes, in the fixed order in which the win scan tries them. */
  datatype Attr = Color | Height | Shape | Hollow

  const Attrs: seq<Attr> := [Color, Height, Shape, Hollow]

  /** One catalog entry: the id and its four 0/1 attribute values. */
  datatype Piece = Piece(id: PieceId, color: nat, height: nat, shape: nat, hollow: nat)

  /** Piece `i` of the catalog: color is bit 3 of the id, height bit 2, shape bit 1,
      hollow bit 0 (`(i>>k)&1` on a non-negative id is `(i / 2^k) % 2`). */
  function MakePiece(i: PieceId): Piece
  {
    Piece(i, (i / 8) % 2, (i / 4) % 2, (i / 2) % 2, i % 2)
  }

  /** The sixteen pieces in id order. */
  const Catalog: seq<Piece> :=
    [MakePiece(0), MakePiece(1), MakePiece(2), MakePiece(3),
     MakePiece(4), MakePiece(5), MakePiece(6), MakePiece(7),
     MakePiece(8), MakePiece(9), MakePiece(10), MakePiece(11),
     MakePiece(12), MakePiece(13), MakePiece(14), MakePiece(15)]

  /** The value of attribute `a` of a catalog entry (`p[a]`). */
  function Value(p: Piece, a: Attr): nat
  {
    match a
    case Color => p.color
    case Height => p.height
    case Shape => p.shape
    case Hollow => p.hollow
  }

  /** The value of attribute `a` of piece `id` (`pieces[id][a]`, see CatalogEntry). */
  function AttrOf(id: PieceId, a: Attr): (v: nat)
    ensures v < 2
  {
    Value(MakePiece(id), a)
  }

  /** The id whose bits are the four given attribute values. */
  function IdOf(color: nat, height: nat, shape: nat, hollow: nat): (id: PieceId)
    requires color < 2 && height < 2 && shape < 2 && hollow < 2
  {
    8 * color + 4 * height + 2 * shape + hollow
  }

  /** The catalog holds sixteen entries and entry `i` is piece `i`, so `pieces[id][a]`
      is `AttrOf(id, a)`. */
  lemma CatalogEntry(i: PieceId, a: Attr)
    ensures |Catalog| == 16 && Catalog[i] == MakePiece(i) && Catalog[i].id == i
    ensures Value(Catalog[i], a) == AttrOf(i, a)
  {
  }

  /** Reading the four attributes of a piece and re-packing them gives back its id. */
  lemma AttrsToId(id: PieceId)
    ensures IdOf(AttrOf(id, Color), AttrOf(id, Height), AttrOf(id, Shape), AttrOf(id, Hollow)) == id
  {
    var c, h, s, o := id / 8, (id / 4) % 2, (id / 2) % 2, id % 2;
    assert id == 8 * c + 4 * h + 2 * s + o;
  }

  /** Packing four attribute values into an id and reading them back gives the same values. */
  lemma IdToAttrs(color: nat, height: nat, shape: nat, hollow: nat)
    requires color < 2 && height < 2 && shape < 2 && hollow < 2
    ensures var id := IdOf(color, height, shape, hollow);
            AttrOf(id, Color) == color && AttrOf(id, Height) == height &&
            AttrOf(id, Shape) == shape && AttrOf(id, Hollow) == hollow
  {
    var id := IdOf(color, height, shape, hollow);
    var rest := 4 * height + 2 * shape + hollow;
    assert rest < 8 && id == 8 * color + rest;
    assert id / 8 == color;
    assert id / 4 == 2 * color + height;
    assert id / 2 == 4 * color + 2 * height + shape;
  }

  /** Two distinct pieces differ in at least one attribute. */
  lemma DistinctPiecesDiffer(p: PieceId, q: PieceId)
    requires p != q
    ensures exists a :: a in Attrs && AttrOf(p, a) != AttrOf(q, a)
  {
    AttrsToId(p);
    AttrsToId(q);
    if AttrOf(p, Color) == AttrOf(q, Color) && AttrOf(p, Height) == AttrOf(q, Height) &&
       AttrOf(p, Shape) == AttrOf(q, Shape) {
      assert AttrOf(p, Hollow) != AttrOf(q, Hollow);
      assert Hollow in Attrs;
    } else if AttrOf(p, Color) != AttrOf(q, Color) {
      assert Color in Attrs;
    } else if AttrOf(p, Height) != AttrOf(q, Height) {
      assert Height in Attrs;
    } else {
      assert Shape in Attrs;
    }
  }
}
