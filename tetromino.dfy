/** The piece catalogue: seven tetrominoes, each given by four 4x4 character
    templates (one per rotation, row-major, 16 characters, '#' marks a cell). */
module Tetromino {

  datatype Variant = I | J | L | O | S | T | Z

  /** An offset inside a piece's 4x4 box: x is the column, y the row. */
  datatype Point = Point(x: int, y: int)

  /** Side of the template box and length of a template string. */
  const SIDE: nat := 4
  const TEMPLATE_LENGTH: nat := 16

  /** The rotation templates of each variant, in rotation order. */
  const I_TEMPLATES: seq<string> := [
    "...." +
    "####" +
    "...." +
    "....",
    "..#." +
    "..#." +
    "..#." +
    "..#.",
    "...." +
    "...." +
    "####" +
    "....",
    ".#.." +
    ".#.." +
    ".#.." +
    ".#.."]

  const J_TEMPLATES: seq<string> := [
    "#..." +
    "###." +
    "...." +
    "....",
    ".##." +
    ".#.." +
    ".#.." +
    "....",
    "...." +
    "###." +
    "..#." +
    "....",
    ".#.." +
    ".#.." +
    "##.." +
    "...."]

  const L_TEMPLATES: seq<string> := [
    "..#." +
    "###." +
    "...." +
    "....",
    ".#.." +
    ".#.." +
    ".##." +
    "....",
    "...." +
    "###." +
    "#..." +
    "....",
    "##.." +
    ".#.." +
    ".#.." +
    "...."]

  const O_TEMPLATES: seq<string> := [
    ".##." +
    ".##." +
    "...." +
    "....",
    ".##." +
    ".##." +
    "...." +
    "....",
    ".##." +
    ".##." +
    "...." +
    "....",
    ".##." +
    ".##." +
    "...." +
    "...."]

  const S_TEMPLATES: seq<string> := [
    ".##." +
    "##.." +
    "...." +
    "....",
    ".#.." +
    ".##." +
    "..#." +
    "....",
    ".##." +
    "##.." +
    "...." +
    "....",
    ".#.." +
    ".##." +
    "..#." +
    "...."]

  const T_TEMPLATES: seq<string> := [
    ".#.." +
    "###." +
    "...." +
    "....",
    ".#.." +
    ".##." +
    ".#.." +
    "....",
    "...." +
    "###." +
    ".#.." +
    "....",
    ".#.." +
    "##.." +
    ".#.." +
    "...."]

  const Z_TEMPLATES: seq<string> := [
    "##.." +
    ".##." +
    "...." +
    "....",
    "..#." +
    ".##." +
    ".#.." +
    "....",
    "##.." +
    ".##." +
    "...." +
    "....",
    "..#." +
    ".##." +
    ".#.." +
    "...."]

  /** The rotation templates of a variant. */
  function Rotations(v: Variant): seq<string>
  {
    match v
    case I => I_TEMPLATES
    case J => J_TEMPLATES
    case L => L_TEMPLATES
    case O => O_TEMPLATES
    case S => S_TEMPLATES
    case T => T_TEMPLATES
    case Z => Z_TEMPLATES
  }

  /** Number of rotation states of a variant: the number of its templates,
      which is four for every variant. */
  function RotationCount(v: Variant): (n: nat)
    ensures n == 4
  {
    TemplatesHaveSixteenChars(v, 0);
    |Rotations(v)|
  }

  /** The template used for a rotation index, taken modulo the rotation count. */
  function Template(v: Variant, rot: nat): (s: string)
    ensures |s| == TEMPLATE_LENGTH
  {
    TemplatesHaveSixteenChars(v, rot % RotationCount(v));
    Rotations(v)[rot % RotationCount(v)]
  }

  /** Position of an offset in a template string. */
  function Index(p: Point): int
  {
    SIDE * p.y + p.x
  }

  predicate InBox(p: Point)
  {
    0 <= p.x < SIDE && 0 <= p.y < SIDE
  }

  /** The offsets of the '#' characters of s at positions i and above, in
      ascending position order. */
  function CellsFrom(s: string, i: nat): (cells: seq<Point>)
    requires |s| == TEMPLATE_LENGTH && i <= TEMPLATE_LENGTH
    decreases TEMPLATE_LENGTH - i
    ensures forall k :: 0 <= k < |cells| ==>
      InBox(cells[k]) && i <= Index(cells[k]) && s[Index(cells[k])] == '#'
    ensures Ascending(cells)
  {
    if i == TEMPLATE_LENGTH then []
    else if s[i] == '#' then [Point(i % SIDE, i / SIDE)] + CellsFrom(s, i + 1)
    else CellsFrom(s, i + 1)
  }

  /** Whether the offsets come in strictly increasing template position. */
  predicate Ascending(cells: seq<Point>)
  {
    forall j, k :: 0 <= j < k < |cells| ==> Index(cells[j]) < Index(cells[k])
  }

  /** Four cells of a piece. */
  datatype Quad = Quad(a: Point, b: Point, c: Point, d: Point)

  /** The cells of each piece in each rotation (the index taken modulo the
      rotation count), in template order: row by row, left to right. This
      table is not a second definition of the pieces: BlocksDecodeTemplate
      proves it equal to decoding the templates above. It exists so that
      proofs about a piece on a symbolic variant need not decode strings. */
  function Shape(v: Variant, rot: nat): Quad
  {
    match v
    case I =>
      if rot % 4 == 0 then Quad(Point(0, 1), Point(1, 1), Point(2, 1), Point(3, 1))
      else if rot % 4 == 1 then Quad(Point(2, 0), Point(2, 1), Point(2, 2), Point(2, 3))
      else if rot % 4 == 2 then Quad(Point(0, 2), Point(1, 2), Point(2, 2), Point(3, 2))
      else Quad(Point(1, 0), Point(1, 1), Point(1, 2), Point(1, 3))
    case J =>
      if rot % 4 == 0 then Quad(Point(0, 0), Point(0, 1), Point(1, 1), Point(2, 1))
      else if rot % 4 == 1 then Quad(Point(1, 0), Point(2, 0), Point(1, 1), Point(1, 2))
      else if rot % 4 == 2 then Quad(Point(0, 1), Point(1, 1), Point(2, 1), Point(2, 2))
      else Quad(Point(1, 0), Point(1, 1), Point(0, 2), Point(1, 2))
    case L =>
      if rot % 4 == 0 then Quad(Point(2, 0), Point(0, 1), Point(1, 1), Point(2, 1))
      else if rot % 4 == 1 then Quad(Point(1, 0), Point(1, 1), Point(1, 2), Point(2, 2))
      else if rot % 4 == 2 then Quad(Point(0, 1), Point(1, 1), Point(2, 1), Point(0, 2))
      else Quad(Point(0, 0), Point(1, 0), Point(1, 1), Point(1, 2))
    case O =>
      if rot % 4 == 0 then Quad(Point(1, 0), Point(2, 0), Point(1, 1), Point(2, 1))
      else if rot % 4 == 1 then Quad(Point(1, 0), Point(2, 0), Point(1, 1), Point(2, 1))
      else if rot % 4 == 2 then Quad(Point(1, 0), Point(2, 0), Point(1, 1), Point(2, 1))
      else Quad(Point(1, 0), Point(2, 0), Point(1, 1), Point(2, 1))
    case S =>
      if rot % 4 == 0 then Quad(Point(1, 0), Point(2, 0), Point(0, 1), Point(1, 1))
      else if rot % 4 == 1 then Quad(Point(1, 0), Point(1, 1), Point(2, 1), Point(2, 2))
      else if rot % 4 == 2 then Quad(Point(1, 0), Point(2, 0), Point(0, 1), Point(1, 1))
      else Quad(Point(1, 0), Point(1, 1), Point(2, 1), Point(2, 2))
    case T =>
      if rot % 4 == 0 then Quad(Point(1, 0), Point(0, 1), Point(1, 1), Point(2, 1))
      else if rot % 4 == 1 then Quad(Point(1, 0), Point(1, 1), Point(2, 1), Point(1, 2))
      else if rot % 4 == 2 then Quad(Point(0, 1), Point(1, 1), Point(2, 1), Point(1, 2))
      else Quad(Point(1, 0), Point(0, 1), Point(1, 1), Point(1, 2))
    case Z =>
      if rot % 4 == 0 then Quad(Point(0, 0), Point(1, 0), Point(1, 1), Point(2, 1))
      else if rot % 4 == 1 then Quad(Point(2, 0), Point(1, 1), Point(2, 1), Point(1, 2))
      else if rot % 4 == 2 then Quad(Point(0, 0), Point(1, 0), Point(1, 1), Point(2, 1))
      else Quad(Point(2, 0), Point(1, 1), Point(2, 1), Point(1, 2))
  }

  /** The cells of a piece in a rotation, in template order. These are exactly
      the '#' positions of the template, as BlocksDecodeTemplate proves. */
  function Blocks(v: Variant, rot: nat): (cells: seq<Point>)
    ensures |cells| == 4 && Ascending(cells)
    ensures forall k :: 0 <= k < |cells| ==> InBox(cells[k])
  {
    var q := Shape(v, rot);
    [q.a, q.b, q.c, q.d]
  }

  /** Whether template row r holds a '#'. */
  predicate RowHasBlock(s: string, r: nat)
    requires |s| == TEMPLATE_LENGTH && r < SIDE
  {
    '#' in s[SIDE * r .. SIDE * r + SIDE]
  }

  /** The first template row at or below r (counting from the top) that holds a
      '#', or SIDE when there is none. */
  function FirstFilledRow(s: string, r: nat): (top: nat)
    requires |s| == TEMPLATE_LENGTH && r <= SIDE
    decreases SIDE - r
    ensures r <= top <= SIDE
    ensures forall q :: r <= q < top ==> !RowHasBlock(s, q)
    ensures top < SIDE ==> RowHasBlock(s, top)
  {
    if r == SIDE then SIDE
    else if RowHasBlock(s, r) then r
    else FirstFilledRow(s, r + 1)
  }

  /** Number of leading empty rows of the template for a rotation: the row of
      its first cell (TopEmptyRowsScansTemplate proves this is the first
      template row holding a '#'). */
  function TopEmptyRows(v: Variant, rot: nat): (n: nat)
    ensures n < SIDE
  {
    Shape(v, rot).a.y
  }

  lemma TemplatesHaveSixteenChars(v: Variant, k: nat)
    requires k < 4
    ensures |Rotations(v)| == 4 && |Rotations(v)[k]| == TEMPLATE_LENGTH
  {
  }

  /** Every '#' at position i or above is decoded. */
  lemma {:induction false} CellsFromComplete(s: string, i: nat, j: nat)
    requires |s| == TEMPLATE_LENGTH && i <= j < TEMPLATE_LENGTH && s[j] == '#'
    decreases j - i
    ensures Point(j % SIDE, j / SIDE) in CellsFrom(s, i)
  {
    if i < j {
      CellsFromComplete(s, i + 1, j);
    }
  }

  /** CellsFrom yields one offset per '#' at position i or above. */
  lemma {:induction false} CellsFromCount(s: string, i: nat)
    requires |s| == TEMPLATE_LENGTH && i <= TEMPLATE_LENGTH
    decreases TEMPLATE_LENGTH - i
    ensures |CellsFrom(s, i)| == multiset(s[i..])['#']
  {
    if i < TEMPLATE_LENGTH {
      CellsFromCount(s, i + 1);
      assert s[i..] == [s[i]] + s[i + 1..];
    }
  }

  // The '#' count of each template, one lemma per template so that each proof
  // only has to count the characters of one string; HashesOfI to HashesOfZ
  // collect them by rotation index.

  lemma HashesOfI0()
    ensures multiset(I_TEMPLATES[0])['#'] == 4
  {
  }

  lemma HashesOfI1()
    ensures multiset(I_TEMPLATES[1])['#'] == 4
  {
  }

  lemma HashesOfI2()
    ensures multiset(I_TEMPLATES[2])['#'] == 4
  {
  }

  lemma HashesOfI3()
    ensures multiset(I_TEMPLATES[3])['#'] == 4
  {
  }

  lemma HashesOfI(k: nat)
    requires k < 4
    ensures |I_TEMPLATES| == 4 && multiset(I_TEMPLATES[k])['#'] == 4
  {
    if k == 0 { HashesOfI0(); }
    else if k == 1 { HashesOfI1(); }
    else if k == 2 { HashesOfI2(); }
    else { HashesOfI3(); }
  }

  lemma HashesOfJ0()
    ensures multiset(J_TEMPLATES[0])['#'] == 4
  {
  }

  lemma HashesOfJ1()
    ensures multiset(J_TEMPLATES[1])['#'] == 4
  {
  }

  lemma HashesOfJ2()
    ensures multiset(J_TEMPLATES[2])['#'] == 4
  {
  }

  lemma HashesOfJ3()
    ensures multiset(J_TEMPLATES[3])['#'] == 4
  {
  }

  lemma HashesOfJ(k: nat)
    requires k < 4
    ensures |J_TEMPLATES| == 4 && multiset(J_TEMPLATES[k])['#'] == 4
  {
    if k == 0 { HashesOfJ0(); }
    else if k == 1 { HashesOfJ1(); }
    else if k == 2 { HashesOfJ2(); }
    else { HashesOfJ3(); }
  }

  lemma HashesOfL0()
    ensures multiset(L_TEMPLATES[0])['#'] == 4
  {
  }

  lemma HashesOfL1()
    ensures multiset(L_TEMPLATES[1])['#'] == 4
  {
  }

  lemma HashesOfL2()
    ensures multiset(L_TEMPLATES[2])['#'] == 4
  {
  }

  lemma HashesOfL3()
    ensures multiset(L_TEMPLATES[3])['#'] == 4
  {
  }

  lemma HashesOfL(k: nat)
    requires k < 4
    ensures |L_TEMPLATES| == 4 && multiset(L_TEMPLATES[k])['#'] == 4
  {
    if k == 0 { HashesOfL0(); }
    else if k == 1 { HashesOfL1(); }
    else if k == 2 { HashesOfL2(); }
    else { HashesOfL3(); }
  }

  lemma HashesOfO0()
    ensures multiset(O_TEMPLATES[0])['#'] == 4
  {
  }

  lemma HashesOfO1()
    ensures multiset(O_TEMPLATES[1])['#'] == 4
  {
  }

  lemma HashesOfO2()
    ensures multiset(O_TEMPLATES[2])['#'] == 4
  {
  }

  lemma HashesOfO3()
    ensures multiset(O_TEMPLATES[3])['#'] == 4
  {
  }

  lemma HashesOfO(k: nat)
    requires k < 4
    ensures |O_TEMPLATES| == 4 && multiset(O_TEMPLATES[k])['#'] == 4
  {
    if k == 0 { HashesOfO0(); }
    else if k == 1 { HashesOfO1(); }
    else if k == 2 { HashesOfO2(); }
    else { HashesOfO3(); }
  }

  lemma HashesOfS0()
    ensures multiset(S_TEMPLATES[0])['#'] == 4
  {
  }

  lemma HashesOfS1()
    ensures multiset(S_TEMPLATES[1])['#'] == 4
  {
  }

  lemma HashesOfS2()
    ensures multiset(S_TEMPLATES[2])['#'] == 4
  {
  }

  lemma HashesOfS3()
    ensures multiset(S_TEMPLATES[3])['#'] == 4
  {
  }

  lemma HashesOfS(k: nat)
    requires k < 4
    ensures |S_TEMPLATES| == 4 && multiset(S_TEMPLATES[k])['#'] == 4
  {
    if k == 0 { HashesOfS0(); }
    else if k == 1 { HashesOfS1(); }
    else if k == 2 { HashesOfS2(); }
    else { HashesOfS3(); }
  }

  lemma HashesOfT0()
    ensures multiset(T_TEMPLATES[0])['#'] == 4
  {
  }

  lemma HashesOfT1()
    ensures multiset(T_TEMPLATES[1])['#'] == 4
  {
  }

  lemma HashesOfT2()
    ensures multiset(T_TEMPLATES[2])['#'] == 4
  {
  }

  lemma HashesOfT3()
    ensures multiset(T_TEMPLATES[3])['#'] == 4
  {
  }

  lemma HashesOfT(k: nat)
    requires k < 4
    ensures |T_TEMPLATES| == 4 && multiset(T_TEMPLATES[k])['#'] == 4
  {
    if k == 0 { HashesOfT0(); }
    else if k == 1 { HashesOfT1(); }
    else if k == 2 { HashesOfT2(); }
    else { HashesOfT3(); }
  }

  lemma HashesOfZ0()
    ensures multiset(Z_TEMPLATES[0])['#'] == 4
  {
  }

  lemma HashesOfZ1()
    ensures multiset(Z_TEMPLATES[1])['#'] == 4
  {
  }

  lemma HashesOfZ2()
    ensures multiset(Z_TEMPLATES[2])['#'] == 4
  {
  }

  lemma HashesOfZ3()
    ensures multiset(Z_TEMPLATES[3])['#'] == 4
  {
  }

  lemma HashesOfZ(k: nat)
    requires k < 4
    ensures |Z_TEMPLATES| == 4 && multiset(Z_TEMPLATES[k])['#'] == 4
  {
    if k == 0 { HashesOfZ0(); }
    else if k == 1 { HashesOfZ1(); }
    else if k == 2 { HashesOfZ2(); }
    else { HashesOfZ3(); }
  }

  /** Every template has four '#' characters. */
  lemma HashCount(v: Variant, k: nat)
    requires k < 4
    ensures |Rotations(v)| == 4 && multiset(Rotations(v)[k])['#'] == 4
  {
    match v
    case I => HashesOfI(k);
    case J => HashesOfJ(k);
    case L => HashesOfL(k);
    case O => HashesOfO(k);
    case S => HashesOfS(k);
    case T => HashesOfT(k);
    case Z => HashesOfZ(k);
  }

  /** Each cell of a table entry is a '#' of its template. */
  lemma TableCellsAreHashes(v: Variant, k: nat)
    requires k < 4
    ensures |Rotations(v)| == 4 && |Rotations(v)[k]| == TEMPLATE_LENGTH
    ensures forall j :: 0 <= j < 4 ==> Rotations(v)[k][Index(Blocks(v, k)[j])] == '#'
  {
    TemplatesHaveSixteenChars(v, k);
  }

  /** A template position and the offset it stands for. */
  lemma IndexOfPoint(p: Point)
    requires InBox(p)
    ensures 0 <= Index(p) < TEMPLATE_LENGTH
    ensures Point(Index(p) % SIDE, Index(p) / SIDE) == p
  {
  }

  /** A member of b other than its head is a member of its tail. */
  lemma InTail(x: Point, b: seq<Point>)
    requires x in b && x != b[0]
    ensures x in b[1..]
  {
    var m :| 0 <= m < |b| && b[m] == x;
    assert b[1..][m - 1] == x;
  }

  /** A member of an ascending sequence other than its head comes after the
      head. */
  lemma AfterHead(x: Point, b: seq<Point>)
    requires Ascending(b) && x in b && x != b[0]
    ensures Index(b[0]) < Index(x)
  {
    var m :| 0 <= m < |b| && b[m] == x;
    assert m != 0;
  }

  /** An ascending sequence whose members all occur in another ascending
      sequence is no longer than it, and equal to it when just as long. */
  lemma {:induction false} AscendingSubset(a: seq<Point>, b: seq<Point>)
    requires Ascending(a) && Ascending(b)
    requires forall k :: 0 <= k < |a| ==> a[k] in b
    decreases |b|
    ensures |a| <= |b|
    ensures |a| == |b| ==> a == b
  {
    if b == [] {
    } else if a != [] && a[0] == b[0] {
      forall k | 0 <= k < |a| - 1 ensures a[1..][k] in b[1..] {
        assert Index(a[0]) < Index(a[k + 1]);
        InTail(a[k + 1], b);
      }
      AscendingSubset(a[1..], b[1..]);
      if |a| == |b| {
        assert a == [a[0]] + a[1..] && b == [b[0]] + b[1..];
      }
    } else {
      if a != [] {
        AfterHead(a[0], b);
      }
      forall k | 0 <= k < |a| ensures a[k] in b[1..] {
        assert Index(a[0]) <= Index(a[k]);
        InTail(a[k], b);
      }
      AscendingSubset(a, b[1..]);
    }
  }

  /** Rotation indices are taken modulo the rotation count. */
  lemma BlocksModulo(v: Variant, rot: nat)
    ensures Blocks(v, rot) == Blocks(v, rot % 4)
  {
    assert (rot % 4) % 4 == rot % 4;
  }

  /** The table entry for rotation index k decodes its template. */
  lemma EntryDecodesTemplate(v: Variant, k: nat)
    requires k < 4
    ensures |Rotations(v)| == 4 && |Rotations(v)[k]| == TEMPLATE_LENGTH
    ensures Blocks(v, k) == CellsFrom(Rotations(v)[k], 0)
  {
    TableCellsAreHashes(v, k);
    HashCount(v, k);
    var t := Rotations(v)[k];
    var b := Blocks(v, k);
    CellsFromCount(t, 0);
    assert t[0..] == t;
    var d := CellsFrom(t, 0);
    forall j | 0 <= j < |b| ensures b[j] in d {
      IndexOfPoint(b[j]);
      CellsFromComplete(t, 0, Index(b[j]));
    }
    AscendingSubset(b, d);
  }

  /** The table is what getBlocks decodes from the templates: the '#'
      positions in ascending order. */
  lemma BlocksDecodeTemplate(v: Variant, rot: nat)
    ensures Blocks(v, rot) == CellsFrom(Template(v, rot), 0)
  {
    BlocksModulo(v, rot);
    EntryDecodesTemplate(v, rot % 4);
  }

  /** The cells of a rotation are exactly the '#' positions of its template. */
  lemma BlocksAreTemplateCells(v: Variant, rot: nat, p: Point)
    ensures p in Blocks(v, rot) <==> InBox(p) && Template(v, rot)[Index(p)] == '#'
  {
    BlocksDecodeTemplate(v, rot);
    var t := Template(v, rot);
    if InBox(p) && t[Index(p)] == '#' {
      IndexOfPoint(p);
      CellsFromComplete(t, 0, Index(p));
    }
  }

  /** The topmost cells of a rotation lie exactly TopEmptyRows below the top
      of its box. */
  lemma TopEmptyRowsIsTopCell(v: Variant, rot: nat)
    ensures forall p :: p in Blocks(v, rot) ==> p.y >= TopEmptyRows(v, rot)
    ensures exists p :: p in Blocks(v, rot) && p.y == TopEmptyRows(v, rot)
  {
    var cells := Blocks(v, rot);
    forall k | 0 <= k < |cells| ensures cells[k].y >= cells[0].y {
      if k > 0 {
        assert Index(cells[0]) < Index(cells[k]);
      }
    }
    assert cells[0] in cells;
  }

  /** A template row holding a cell of the rotation holds a '#'. */
  lemma CellRowHasBlock(v: Variant, rot: nat, p: Point)
    requires p in Blocks(v, rot)
    ensures 0 <= p.y < SIDE && RowHasBlock(Template(v, rot), p.y as nat)
  {
    BlocksAreTemplateCells(v, rot, p);
    var s := Template(v, rot);
    assert s[SIDE * p.y .. SIDE * p.y + SIDE][p.x] == '#';
  }

  /** A template row holding a '#' holds a cell of the rotation. */
  lemma BlockRowHasCell(v: Variant, rot: nat, r: nat)
    requires r < SIDE && RowHasBlock(Template(v, rot), r)
    ensures exists p :: p in Blocks(v, rot) && p.y == r
  {
    var s := Template(v, rot);
    var c :| 0 <= c < SIDE && s[SIDE * r .. SIDE * r + SIDE][c] == '#';
    var q := Point(c, r);
    assert s[Index(q)] == '#';
    BlocksAreTemplateCells(v, rot, q);
  }

  /** TopEmptyRows is the template scan: the first row of the template that
      holds a '#'. */
  lemma TopEmptyRowsScansTemplate(v: Variant, rot: nat)
    ensures TopEmptyRows(v, rot) == FirstFilledRow(Template(v, rot), 0)
  {
    var top := FirstFilledRow(Template(v, rot), 0);
    TopEmptyRowsIsTopCell(v, rot);
    var p0 := Blocks(v, rot)[0];
    assert p0 in Blocks(v, rot);
    CellRowHasBlock(v, rot, p0);
    assert top <= p0.y;
    BlockRowHasCell(v, rot, top);
  }
}
