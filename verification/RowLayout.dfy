/**
 * Where a fetched column value lands in the application's memory, and what is written there.
 * Positions are 0-based slots of the current rowset.
 */
module RowLayout {
  import opened OdbcTypes
  import opened AppMemory

  /**
   * The bound C types of the model: text, every integer type and SQL_C_NUMERIC; `CUnsupported` is one the driver
   * rejects.
   */
  datatype CType =
    | CChar
    | CShort | CUShort | CSLong | CULong | CLong | CBit | CTinyInt | CSTinyInt | CSBigInt | CUBigInt
    | CNumeric
    | CUnsupported
  {
    /** The size of the C type the application declares. */
    function FixedWidth(): nat {
      match this
      case CBit | CTinyInt | CSTinyInt => 1
      case CShort | CUShort => 2
      case CSLong | CULong | CLong => 4
      case CSBigInt | CUBigInt => 8
      case CNumeric => 3 + SQL_MAX_NUMERIC_LEN
      case CChar | CUnsupported => 0
    }

    /** How many bytes the driver stores for an integer, and the length it reports. */
    function StoredAs(): (nat, int)
      requires IsInteger()
    {
      match this
      case CBit | CTinyInt | CSTinyInt => (1, 1)
      case CShort | CUShort => (2, 2)
      case CSLong | CULong => (4, 4)
      case CLong => (4, 8)
      case CSBigInt | CUBigInt => (8, 8)
    }

    predicate IsInteger() {
      !CChar? && !CNumeric? && !CUnsupported?
    }
  }

  /** The bytes of a SQL_NUMERIC_STRUCT that hold the number; precision, scale and sign come before them. */
  const SQL_MAX_NUMERIC_LEN: nat := 16

  type Mantissa = s: seq<Byte> | |s| == 16 witness seq(16, _ => 0)

  /** A native decimal; `whole` is its whole part as the native client puts it into 16 bytes, if it fits. */
  datatype Number = Number(sign: Byte, scale: int, magnitude: seq<Byte>, whole: Option<Mantissa>) {
    predicate Fits() {
      |magnitude| <= SQL_MAX_NUMERIC_LEN && scale <= SQL_MAX_NUMERIC_LEN
    }
  }

  /**
   * A column of a native row: SQL NULL, or its text and its conversions to an integer and to a decimal, None where
   * the native client refuses the conversion with an exception.
   */
  datatype Column = Null | Value(text: seq<Byte>, num: Option<int>, dec: Option<Number>) {
    function GetInteger(): Option<int> {
      if Null? then Some(0) else num
    }
  }

  /** How one conversion ends: it returns success, information or an error, or it throws. */
  datatype Outcome = Stored | Truncated | Failed | Thrown {
    predicate Stops() {
      Failed? || Thrown?
    }

    /** The code of a call that ends this way; exceptions are reported as errors. */
    function ReturnCode(): Code {
      match this
      case Stored => Success
      case Truncated => SuccessWithInfo
      case Failed | Thrown => Error
    }
  }

  type Row = seq<Column>

  /** A column bound by SQLBindCol; address 0 is the null pointer. */
  datatype OutputField = OutputField(ctype: CType, targetValue: nat, valueSize: int, lenOrInd: nat) {
    predicate Bound() {
      targetValue != 0
    }
  }

  /** The bind orientation (column-wise, or the size of a row structure) and the bind offset. */
  datatype Layout = Layout(orientation: nat, offset: nat)

  /** A field has two parts in memory: its value (0) and its length/indicator word (1). */
  type Part = q: int | 0 <= q < 2

  function Start(f: OutputField, q: Part): int {
    if q == 0 then f.targetValue else f.lenOrInd
  }

  function Stride(l: Layout, f: OutputField, q: Part): int {
    if l.orientation != BIND_BY_COLUMN then l.orientation
    else if q == 0 then f.valueSize
    else 8
  }

  function Width(f: OutputField, q: Part): nat {
    if q == 1 then 8
    else if f.ctype == CChar then Max(f.valueSize, 0)
    else f.ctype.FixedWidth()
  }

  /** The address the driver computes for part `q` of `f` in slot `p`. */
  function Addr(l: Layout, f: OutputField, q: Part, p: nat): int {
    Start(f, q) + p * Stride(l, f, q) + l.offset
  }

  /** What one conversion stores, value bytes and indicator word, and how it ends. */
  datatype Image = Image(data: seq<Byte>, indicator: int, outcome: Outcome)

  function ImageOf(f: OutputField, col: Column): Image {
    match f.ctype
    case CUnsupported => Image([], 0, Failed)
    case CChar =>
      if col.Null? then Image(if f.valueSize > 0 then [0] else [], SQL_NULL_DATA, Stored)
      else if f.valueSize - 1 >= |col.text| then Image(col.text + [0], |col.text|, Stored)
      else if f.valueSize - 1 >= 0 then
        Image(col.text[..f.valueSize - 1] + [0], |col.text|, Truncated)
      else Image([], |col.text|, Truncated)
    case CNumeric =>
      if col.Null? then Image(seq(CNumeric.FixedWidth(), _ => 0), SQL_NULL_DATA, Stored)
      else if col.dec == None then Image([], 0, Thrown)
      else NumericImage(col.dec.value)
    case _ =>
      var (w, length) := f.ctype.StoredAs();
      if col.GetInteger() == None then Image([], 0, Thrown)
      else Image(LittleEndian(col.GetInteger().value, w), if col.Null? then SQL_NULL_DATA else length, Stored)
  }

  /** The number, or its whole part if it is too long for the structure; an overflow still reports its length. */
  function NumericImage(d: Number): Image {
    var n := |d.magnitude|;
    if d.Fits() then Image([n, d.scale % 256, d.sign] + d.magnitude, n, Stored)
    else if d.whole.Some? then Image([SQL_MAX_NUMERIC_LEN, 0, d.sign] + d.whole.value, n, Truncated)
    else Image([], n, Failed)
  }

  /**
   * How a conversion ends: text is truncated when its terminator has no room, a number when it does not fit but its
   * whole part does; a number whose whole part does not fit and an unsupported type fail, and a conversion that the
   * native client refuses throws.
   */
  function OutcomeOf(f: OutputField, col: Column): Outcome {
    match f.ctype
    case CUnsupported => Failed
    case CChar => if col.Value? && |col.text| >= f.valueSize then Truncated else Stored
    case CNumeric =>
      if col.Null? then Stored
      else if col.dec == None then Thrown
      else if |col.dec.value.magnitude| <= 16 && col.dec.value.scale <= 16 then Stored
      else if col.dec.value.whole.Some? then Truncated
      else Failed
    case _ => if col.Value? && col.num == None then Thrown else Stored
  }

  /** The conversion of a bound column ends a row of a rowset. */
  predicate Stopping(f: OutputField, col: Column) {
    f.Bound() && OutcomeOf(f, col) in {Failed, Thrown}
  }

  lemma ImageFits(f: OutputField, col: Column)
    ensures |ImageOf(f, col).data| <= Width(f, 0)
    ensures ImageOf(f, col).outcome == OutcomeOf(f, col)
    ensures ImageOf(f, col).outcome.Stops() ==> ImageOf(f, col).data == []
  {
  }

  /** The indicator word written at `ia`, unless `ia` is the null pointer. */
  function PutIndicator(m: seq<Byte>, ia: int, n: int): (r: seq<Byte>)
    ensures |r| == |m|
    ensures forall x :: 0 <= x < |m| && !(ia <= x < ia + 8) ==> r[x] == m[x]
  {
    if ia == 0 then m else Put(m, ia, LittleEndian(n, 8))
  }

  /** One column conversion into memory: strings store their length first, the rest their value first. */
  function FillOutput(m: seq<Byte>, f: OutputField, col: Column, a: int, ia: int): (r: (seq<Byte>, Outcome))
    ensures |r.0| == |m| && r.1 == OutcomeOf(f, col)
  {
    var im := ImageOf(f, col);
    if f.ctype == CUnsupported || im.outcome == Thrown then (m, im.outcome)
    else if f.ctype == CChar && !col.Null? then
      (Put(PutIndicator(m, ia, im.indicator), a, im.data), im.outcome)
    else
      (PutIndicator(Put(m, a, im.data), ia, im.indicator), im.outcome)
  }

  /**
   * What one conversion writes, wherever its buffers lie: its value, and its length word unless the pointer to it is
   * null. Where the two overlap the value of a text wins, and the length word of anything else. An unsupported type
   * and a conversion that throws write nothing.
   */
  lemma ConversionWrites(m: seq<Byte>, f: OutputField, col: Column, a: int, ia: int, x: nat)
    requires x < |m| && 0 <= a && a + |ImageOf(f, col).data| <= |m| && (ia != 0 ==> 0 < ia && ia + 8 <= |m|)
    ensures var writes := f.ctype != CUnsupported && OutcomeOf(f, col) != Thrown;
            var data, word := ImageOf(f, col).data, LittleEndian(ImageOf(f, col).indicator, 8);
            var inValue, inWord := writes && a <= x < a + |data|, writes && ia != 0 && ia <= x < ia + 8;
            FillOutput(m, f, col, a, ia).0[x]
            == if inValue && (!inWord || (f.ctype == CChar && col.Value?)) then data[x - a]
               else if inWord then word[x - ia]
               else m[x]
  {
    hide ImageOf, OutcomeOf, LittleEndian, Put;
    ImageFits(f, col);
    var data, word := ImageOf(f, col).data, LittleEndian(ImageOf(f, col).indicator, 8);
    PutAt(m, a, data, x);
    PutAt(PutIndicator(m, ia, ImageOf(f, col).indicator), a, data, x);
    if ia != 0 {
      PutAt(m, ia, word, x);
      PutAt(Put(m, a, data), ia, word, x);
    }
  }

  lemma PutAt(m: seq<Byte>, a: int, d: seq<Byte>, x: nat)
    requires 0 <= a && a + |d| <= |m| && x < |m|
    ensures Put(m, a, d)[x] == if a <= x < a + |d| then d[x - a] else m[x]
  {
    if a <= x < a + |d| {
      assert Put(m, a, d)[a..a + |d|][x - a] == d[x - a];
    }
  }

  /** How much a conversion may store, and what it does store. */
  lemma StoredSize(f: OutputField, col: Column)
    ensures Width(f, 1) == 8 && Width(f, 0) ==
      match f.ctype {
        case CBit | CTinyInt | CSTinyInt => 1
        case CShort | CUShort => 2
        case CSLong | CULong | CLong => 4
        case CSBigInt | CUBigInt => 8
        case CNumeric => 19
        case CChar => if f.valueSize > 0 then f.valueSize else 0
        case CUnsupported => 0
      }
    ensures |ImageOf(f, col).data| ==
      if OutcomeOf(f, col) in {Failed, Thrown} then 0
      else if f.ctype != CChar then
        if f.ctype == CNumeric && col.Value? && OutcomeOf(f, col) == Stored then 3 + |col.dec.value.magnitude|
        else Width(f, 0)
      else if f.valueSize <= 0 then 0
      else if col.Null? then 1
      else if |col.text| < f.valueSize then |col.text| + 1 else f.valueSize
  {
    hide LittleEndian;
  }

  /** The columns of one row from column `c` on; a conversion that fails stops the row. */
  function FillRow(m: seq<Byte>, l: Layout, fields: seq<OutputField>, c: nat, row: Row, p: nat, result: Outcome)
      : (r: (seq<Byte>, Outcome))
    requires c <= |fields| <= |row|
    ensures |r.0| == |m|
    decreases |fields| - c
  {
    if c == |fields| then (m, result)
    else if !fields[c].Bound() then FillRow(m, l, fields, c + 1, row, p, result)
    else
      var f := fields[c];
      var (m1, r1) := FillOutput(m, f, row[c], Addr(l, f, 0, p), Addr(l, f, 1, p));
      if r1.Stops() then (m1, r1) else FillRow(m1, l, fields, c + 1, row, p, r1)
  }

  /** No bound column from column `c` on stops the row. */
  predicate RowConverts(fields: seq<OutputField>, c: nat, row: Row) {
    |fields| <= |row| && forall k :: c <= k < |fields| ==> !Stopping(fields[k], row[k])
  }

  /** Column `d` is the first one from column `c` on to stop the row. */
  predicate FirstStop(fields: seq<OutputField>, c: nat, row: Row, d: int) {
    && c <= d < |fields| <= |row| && Stopping(fields[d], row[d])
    && forall k :: c <= k < d ==> !Stopping(fields[k], row[k])
  }

  /** A row stops exactly when some conversion does, and ends as its first such conversion. */
  lemma {:induction false} FillRowStopsIff(m: seq<Byte>, l: Layout, fields: seq<OutputField>, c: nat, row: Row, p: nat,
                                           result: Outcome)
    requires c <= |fields| <= |row| && !result.Stops()
    ensures var r := FillRow(m, l, fields, c, row, p, result).1;
            && (r.Stops() <==> !RowConverts(fields, c, row))
            && forall d :: FirstStop(fields, c, row, d) ==> r == OutcomeOf(fields[d], row[d])
    decreases |fields| - c
  {
    hide Addr, ImageOf, OutcomeOf, FillOutput;
    if c < |fields| {
      var f := fields[c];
      var (m1, r1) := if f.Bound() then FillOutput(m, f, row[c], Addr(l, f, 0, p), Addr(l, f, 1, p)) else (m, result);
      if !Stopping(f, row[c]) {
        FillRowStopsIff(m1, l, fields, c + 1, row, p, r1);
      }
    }
  }

  // ----- well-formed buffers -----

  /** The bytes of part `q` that column-wise binding reserves for `b` slots. */
  function BlockEnd(l: Layout, f: OutputField, q: Part, b: nat): int {
    Addr(l, f, q, 0) + b * Stride(l, f, q)
  }

  /**
   * Column-wise arrays of `b` elements: an element is as large as the declared size, and the value and
   * indicator arrays of all bound fields are disjoint and inside the memory.
   */
  ghost predicate ColumnArrays(l: Layout, fields: seq<OutputField>, b: nat, size: nat) {
    && (forall c :: 0 <= c < |fields| && fields[c].Bound() ==> Width(fields[c], 0) <= fields[c].valueSize)
    && (forall c: int, q: Part :: 0 <= c < |fields| && fields[c].Bound() ==>
          0 < Addr(l, fields[c], q, 0) && BlockEnd(l, fields[c], q, b) <= size)
    && (forall c: int, q: Part, c': int, q': Part ::
          0 <= c < |fields| && 0 <= c' < |fields| && fields[c].Bound() && fields[c'].Bound()
          && (c != c' || q != q') ==>
            BlockEnd(l, fields[c], q, b) <= Addr(l, fields[c'], q', 0)
            || BlockEnd(l, fields[c'], q', b) <= Addr(l, fields[c], q, 0))
  }

  /** Row-wise: every part lies inside one structure at `base`, disjoint from the other parts. */
  ghost predicate RowStructs(l: Layout, fields: seq<OutputField>, base: int, b: nat, size: nat) {
    && 0 < base + l.offset && base + l.offset + b * l.orientation <= size
    && (forall c: int, q: Part :: 0 <= c < |fields| && fields[c].Bound() ==>
          base <= Start(fields[c], q) && Start(fields[c], q) + Width(fields[c], q) <= base + l.orientation)
    && (forall c: int, q: Part, c': int, q': Part ::
          0 <= c < |fields| && 0 <= c' < |fields| && fields[c].Bound() && fields[c'].Bound()
          && (c != c' || q != q') ==>
            Start(fields[c], q) + Width(fields[c], q) <= Start(fields[c'], q')
            || Start(fields[c'], q') + Width(fields[c'], q') <= Start(fields[c], q))
  }

  /** The application's side of the binding contract, for rowsets of `b` slots in `size` bytes. */
  ghost predicate WellFormed(l: Layout, fields: seq<OutputField>, base: int, b: nat, size: nat) {
    if l.orientation == BIND_BY_COLUMN then ColumnArrays(l, fields, b, size)
    else RowStructs(l, fields, base, b, size)
  }

  lemma MulMonotone(a: int, b: int, s: int)
    requires a <= b && s >= 0
    ensures a * s <= b * s
  {
    assert b * s - a * s == (b - a) * s;
  }

  /** The size of an element is at most the distance to the next one. */
  lemma StrideCovers(l: Layout, fields: seq<OutputField>, base: int, b: nat, size: nat, c: nat, q: Part)
    requires WellFormed(l, fields, base, b, size)
    requires c < |fields| && fields[c].Bound()
    ensures Width(fields[c], q) <= Stride(l, fields[c], q)
  {
    assert 0 <= Start(fields[c], q);
  }

  lemma SlotInside(l: Layout, fields: seq<OutputField>, base: int, b: nat, size: nat, c: nat, q: Part, p: nat)
    requires WellFormed(l, fields, base, b, size)
    requires c < |fields| && fields[c].Bound() && p < b
    ensures 0 < Addr(l, fields[c], q, p)
    ensures Addr(l, fields[c], q, p) + Width(fields[c], q) <= size
    ensures l.orientation == BIND_BY_COLUMN ==>
      Addr(l, fields[c], q, 0) <= Addr(l, fields[c], q, p)
      && Addr(l, fields[c], q, p) + Width(fields[c], q) <= BlockEnd(l, fields[c], q, b)
  {
    var f := fields[c];
    var s := Stride(l, f, q);
    StrideCovers(l, fields, base, b, size, c, q);
    MulMonotone(0, p, s);
    MulMonotone(p + 1, b, s);
    assert (p + 1) * s == p * s + s;
    if l.orientation == BIND_BY_COLUMN {
      assert Addr(l, f, q, p) == Addr(l, f, q, 0) + p * s;
    } else {
      assert Addr(l, f, q, p) == Start(f, q) + p * s + l.offset;
    }
  }

  /** Distinct (slot, column, part) triples never share a byte. */
  lemma SlotsDisjoint(l: Layout, fields: seq<OutputField>, base: int, b: nat, size: nat,
                      c: nat, q: Part, p: nat, c': nat, q': Part, p': nat)
    requires WellFormed(l, fields, base, b, size)
    requires c < |fields| && fields[c].Bound() && p < b
    requires c' < |fields| && fields[c'].Bound() && p' < b
    requires c != c' || q != q' || p != p'
    ensures Addr(l, fields[c], q, p) + Width(fields[c], q) <= Addr(l, fields[c'], q', p')
         || Addr(l, fields[c'], q', p') + Width(fields[c'], q') <= Addr(l, fields[c], q, p)
  {
    SlotInside(l, fields, base, b, size, c, q, p);
    SlotInside(l, fields, base, b, size, c', q', p');
    if c == c' && q == q' {
      SameFieldDisjoint(l, fields, base, b, size, c, q, Min(p, p'), Max(p, p'));
    } else if l.orientation == BIND_BY_COLUMN {
    } else if p < p' {
      MulMonotone(p + 1, p', l.orientation);
      assert (p + 1) * l.orientation == p * l.orientation + l.orientation;
    } else if p' < p {
      MulMonotone(p' + 1, p, l.orientation);
      assert (p' + 1) * l.orientation == p' * l.orientation + l.orientation;
    }
  }

  lemma SameFieldDisjoint(l: Layout, fields: seq<OutputField>, base: int, b: nat, size: nat,
                          c: nat, q: Part, p: nat, p': nat)
    requires WellFormed(l, fields, base, b, size)
    requires c < |fields| && fields[c].Bound() && p < p' < b
    ensures Addr(l, fields[c], q, p) + Width(fields[c], q) <= Addr(l, fields[c], q, p')
  {
    var f := fields[c];
    var s := Stride(l, f, q);
    assert s >= 0 && Width(f, q) <= s;
    MulMonotone(p + 1, p', s);
    assert (p + 1) * s == p * s + s;
  }

  /**
   * A column-wise value array keeps its elements apart exactly when the declared element size is at least
   * the width of the C type. The declared size 0 that ODBC allows for a fixed-width type therefore fails.
   */
  lemma ElementsApartIff(l: Layout, f: OutputField)
    requires l.orientation == BIND_BY_COLUMN && f.valueSize >= 0
    ensures (forall p: nat, p': nat :: p < p' ==> Addr(l, f, 0, p) + Width(f, 0) <= Addr(l, f, 0, p'))
       <==> Width(f, 0) <= f.valueSize
  {
    if Width(f, 0) <= f.valueSize {
      forall p: nat, p': nat | p < p'
        ensures Addr(l, f, 0, p) + Width(f, 0) <= Addr(l, f, 0, p')
      {
        MulMonotone(p + 1, p', f.valueSize);
        assert (p + 1) * f.valueSize == p * f.valueSize + f.valueSize;
      }
    } else {
      assert Addr(l, f, 0, 1) == Addr(l, f, 0, 0) + f.valueSize;
    }
  }

  /** A null indicator pointer is seen as null by the conversion only in slot 0 with bind offset 0. */
  lemma NullIndicatorSeenIff(l: Layout, f: OutputField, p: nat)
    requires f.lenOrInd == 0
    ensures Addr(l, f, 1, p) == 0 <==> p == 0 && l.offset == 0
  {
    if p > 0 {
      MulMonotone(1, p, Stride(l, f, 1));
    }
  }

  // ----- what the slots hold -----

  /** Slot `p` of field `f` holds the image of `col`. */
  ghost predicate Holds(m: seq<Byte>, l: Layout, f: OutputField, p: nat, col: Column) {
    var a, ia := Addr(l, f, 0, p), Addr(l, f, 1, p);
    var im := ImageOf(f, col);
    && 0 <= a && a + |im.data| <= |m| && m[a..a + |im.data|] == im.data
    && 0 <= ia && ia + 8 <= |m| && m[ia..ia + 8] == LittleEndian(im.indicator, 8)
  }

  /** `x` is a byte of slot `p` of some bound field from column `c` on. */
  ghost predicate Touched(l: Layout, fields: seq<OutputField>, c: nat, p: nat, x: int)
    requires c <= |fields|
    decreases |fields| - c
  {
    c < |fields|
    && (|| (fields[c].Bound() && exists q: Part ::
              Addr(l, fields[c], q, p) <= x < Addr(l, fields[c], q, p) + Width(fields[c], q))
        || Touched(l, fields, c + 1, p, x))
  }

  /** The bytes of slot (c, p) are not touched by the columns from `c'` on of slot `p'`. */
  lemma {:induction false} SlotUntouched(l: Layout, fields: seq<OutputField>, base: int, b: nat, size: nat,
                                         c: nat, q: Part, p: nat, c': nat, p': nat, x: int)
    requires WellFormed(l, fields, base, b, size)
    requires c < |fields| && fields[c].Bound() && p < b
    requires c' <= |fields| && p' < b && (p != p' || c < c')
    requires Addr(l, fields[c], q, p) <= x < Addr(l, fields[c], q, p) + Width(fields[c], q)
    ensures !Touched(l, fields, c', p', x)
    decreases |fields| - c'
  {
    if c' < |fields| {
      if fields[c'].Bound() {
        SlotsDisjoint(l, fields, base, b, size, c, q, p, c', 0, p');
        SlotsDisjoint(l, fields, base, b, size, c, q, p, c', 1, p');
      }
      SlotUntouched(l, fields, base, b, size, c, q, p, c' + 1, p', x);
    }
  }

  /** Two memories that agree on the bytes of a slot hold the same thing there. */
  lemma HoldsFrame(m: seq<Byte>, m': seq<Byte>, l: Layout, f: OutputField, p: nat, col: Column)
    requires |m| == |m'| && Holds(m, l, f, p, col)
    requires forall q: Part, x ::
      0 <= x < |m| && Addr(l, f, q, p) <= x < Addr(l, f, q, p) + Width(f, q) ==> m'[x] == m[x]
    ensures Holds(m', l, f, p, col)
  {
    hide LittleEndian, ImageOf, OutcomeOf;
    ImageFits(f, col);
    var a, ia, d := Addr(l, f, 0, p), Addr(l, f, 1, p), ImageOf(f, col).data;
    assert forall x :: a <= x < a + |d| ==> m'[x] == m[x];
    assert m'[a..a + |d|] == m[a..a + |d|];
    assert forall x :: ia <= x < ia + 8 ==> m'[x] == m[x];
    assert m'[ia..ia + 8] == m[ia..ia + 8];
  }

  /** Two writes to disjoint ranges both stay readable. */
  lemma PutTwice(m: seq<Byte>, a: nat, d: seq<Byte>, b: nat, e: seq<Byte>)
    requires a + |d| <= |m| && b + |e| <= |m|
    requires a + |d| <= b || b + |e| <= a
    ensures var m' := Put(Put(m, a, d), b, e);
            && |m'| == |m| && m'[a..a + |d|] == d && m'[b..b + |e|] == e
            && forall x :: 0 <= x < |m| && m'[x] != m[x] ==> a <= x < a + |d| || b <= x < b + |e|
  {
    var m1 := Put(m, a, d);
    var m' := Put(m1, b, e);
    assert forall x :: a <= x < a + |d| ==> m'[x] == m1[x];
    assert m'[a..a + |d|] == m1[a..a + |d|];
  }

  lemma FillOutputAt(m: seq<Byte>, f: OutputField, col: Column, a: int, ia: int)
    requires 0 < a && a + Width(f, 0) <= |m| && 0 < ia && ia + 8 <= |m|
    requires a + Width(f, 0) <= ia || ia + 8 <= a
    ensures var m', im := FillOutput(m, f, col, a, ia).0, ImageOf(f, col);
            && a + |im.data| <= |m|
            && (!im.outcome.Stops() ==>
                  m'[a..a + |im.data|] == im.data && m'[ia..ia + 8] == LittleEndian(im.indicator, 8))
            && forall x :: 0 <= x < |m| && m'[x] != m[x] ==> a <= x < a + Width(f, 0) || ia <= x < ia + 8
  {
    hide ImageOf, OutcomeOf, LittleEndian, Put;
    ImageFits(f, col);
    var im := ImageOf(f, col);
    var word := LittleEndian(im.indicator, 8);
    var m' := FillOutput(m, f, col, a, ia).0;
    if f.ctype == CUnsupported || im.outcome == Thrown {
      assert m' == m;
      UnsupportedStops(f, col);
    } else if f.ctype == CChar && !col.Null? {
      assert m' == Put(Put(m, ia, word), a, im.data);
      PutTwice(m, ia, word, a, im.data);
    } else {
      assert m' == Put(Put(m, a, im.data), ia, word);
      PutTwice(m, a, im.data, ia, word);
    }
  }

  lemma UnsupportedStops(f: OutputField, col: Column)
    ensures f.ctype == CUnsupported ==> OutcomeOf(f, col).Stops()
  {
  }

  lemma FillOutputHolds(m: seq<Byte>, l: Layout, fields: seq<OutputField>, base: int, b: nat,
                        c: nat, p: nat, col: Column)
    requires WellFormed(l, fields, base, b, |m|) && p < b
    requires c < |fields| && fields[c].Bound()
    ensures var m' := FillOutput(m, fields[c], col, Addr(l, fields[c], 0, p), Addr(l, fields[c], 1, p)).0;
            && (!Stopping(fields[c], col) ==> Holds(m', l, fields[c], p, col))
            && forall x :: 0 <= x < |m| && m'[x] != m[x] ==> Touched(l, fields, c, p, x)
  {
    hide WellFormed, FillOutput, ImageOf, OutcomeOf;
    var f := fields[c];
    ImageFits(f, col);
    SlotInside(l, fields, base, b, |m|, c, 0, p);
    SlotInside(l, fields, base, b, |m|, c, 1, p);
    SlotsDisjoint(l, fields, base, b, |m|, c, 0, p, c, 1, p);
    FillOutputAt(m, f, col, Addr(l, f, 0, p), Addr(l, f, 1, p));
    var m' := FillOutput(m, f, col, Addr(l, f, 0, p), Addr(l, f, 1, p)).0;
    forall x | 0 <= x < |m| && m'[x] != m[x]
      ensures Touched(l, fields, c, p, x)
    {
      var q: Part := if Addr(l, f, 0, p) <= x < Addr(l, f, 0, p) + Width(f, 0) then 0 else 1;
      assert Addr(l, f, q, p) <= x < Addr(l, f, q, p) + Width(f, q);
    }
  }

  /** A filled row: every bound column is in its slot, and nothing outside the row's slots has moved. */
  lemma {:induction false} FillRowHolds(m: seq<Byte>, l: Layout, fields: seq<OutputField>, base: int, b: nat,
                                        c: nat, row: Row, p: nat, result: Outcome)
    requires WellFormed(l, fields, base, b, |m|) && p < b
    requires c <= |fields| <= |row| && !result.Stops()
    ensures var m' := FillRow(m, l, fields, c, row, p, result).0;
            && (forall x :: 0 <= x < |m| && m'[x] != m[x] ==> Touched(l, fields, c, p, x))
            && (RowConverts(fields, c, row) ==>
                  forall k :: c <= k < |fields| && fields[k].Bound() ==> Holds(m', l, fields[k], p, row[k]))
    decreases |fields| - c
  {
    hide WellFormed, FillOutput, Holds, ImageOf, OutcomeOf;
    if c < |fields| {
      if !fields[c].Bound() {
        FillRowHolds(m, l, fields, base, b, c + 1, row, p, result);
      } else {
        var f := fields[c];
        var (m1, r1) := FillOutput(m, f, row[c], Addr(l, f, 0, p), Addr(l, f, 1, p));
        FillOutputHolds(m, l, fields, base, b, c, p, row[c]);
        if !Stopping(f, row[c]) {
          FillRowHolds(m1, l, fields, base, b, c + 1, row, p, r1);
          var m' := FillRow(m1, l, fields, c + 1, row, p, r1).0;
          forall q: Part, x | 0 <= x < |m| && Addr(l, f, q, p) <= x < Addr(l, f, q, p) + Width(f, q)
            ensures m'[x] == m1[x]
          {
            SlotUntouched(l, fields, base, b, |m|, c, q, p, c + 1, p, x);
          }
          HoldsFrame(m1, m', l, f, p, row[c]);
        }
      }
    }
  }

  /** Slot `p` of every bound column holds its value of `row`. */
  ghost predicate HoldsRow(m: seq<Byte>, l: Layout, fields: seq<OutputField>, p: nat, row: Row)
    requires |fields| <= |row|
  {
    forall c :: 0 <= c < |fields| && fields[c].Bound() ==> Holds(m, l, fields[c], p, row[c])
  }

  lemma FillRowHoldsRow(m: seq<Byte>, l: Layout, fields: seq<OutputField>, base: int, b: nat,
                        row: Row, p: nat, result: Outcome)
    requires WellFormed(l, fields, base, b, |m|) && p < b
    requires |fields| <= |row| && !result.Stops()
    ensures var (m', r') := FillRow(m, l, fields, 0, row, p, result);
            && (r'.Stops() <==> !RowConverts(fields, 0, row))
            && (RowConverts(fields, 0, row) ==> HoldsRow(m', l, fields, p, row))
            && forall x :: 0 <= x < |m| && m'[x] != m[x] ==> Touched(l, fields, 0, p, x)
  {
    FillRowHolds(m, l, fields, base, b, 0, row, p, result);
    FillRowStopsIff(m, l, fields, 0, row, p, result);
  }

  /** The outcome of a row is that of its last bound column, whatever the earlier columns reported. */
  lemma {:induction false} LastColumnDecides(m: seq<Byte>, l: Layout, fields: seq<OutputField>, c: nat, row: Row,
                                             p: nat, result: Outcome, last: nat)
    requires c <= last < |fields| <= |row| && fields[last].Bound() && RowConverts(fields, c, row)
    requires forall k :: last < k < |fields| ==> !fields[k].Bound()
    ensures FillRow(m, l, fields, c, row, p, result).1 == OutcomeOf(fields[last], row[last])
    decreases |fields| - c
  {
    hide FillOutput, Addr, ImageOf, OutcomeOf;
    var f := fields[c];
    assert !Stopping(f, row[c]);
    var m1 := if f.Bound() then FillOutput(m, f, row[c], Addr(l, f, 0, p), Addr(l, f, 1, p)).0 else m;
    var r1 := if f.Bound() then OutcomeOf(f, row[c]) else result;
    if c < last {
      LastColumnDecides(m1, l, fields, c + 1, row, p, r1, last);
    } else {
      NoColumnsLeft(m1, l, fields, c + 1, row, p, r1);
    }
  }

  lemma {:induction false} NoColumnsLeft(m: seq<Byte>, l: Layout, fields: seq<OutputField>, c: nat, row: Row,
                                         p: nat, result: Outcome)
    requires c <= |fields| <= |row|
    requires forall k :: c <= k < |fields| ==> !fields[k].Bound()
    ensures FillRow(m, l, fields, c, row, p, result) == (m, result)
    decreases |fields| - c
  {
    if c < |fields| {
      NoColumnsLeft(m, l, fields, c + 1, row, p, result);
    }
  }

  // ----- reading a slot back -----

  /**
   * A table cell as the application sees it after the fetch, with the length word of one that is not null; `cleared`
   * says that the value of a null has been zeroed and `terminated` that a NUL follows the text.
   */
  datatype Seen =
    | SeenNull(cleared: bool)
    | SeenText(prefix: seq<Byte>, terminated: bool, total: int)
    | SeenInteger(n: int, length: int)
    | SeenNumeric(precision: int, scale: int, sign: int, digits: seq<Byte>, length: int)
    | Unreadable
    | NotBound

  /** Where the application looks for the value of slot `p`: in its array, or in its array of structures. */
  function ValuePlace(l: Layout, f: OutputField, p: nat): int {
    l.offset + f.targetValue + (if l.orientation == BIND_BY_COLUMN then f.valueSize * p else l.orientation * p)
  }

  function LengthPlace(l: Layout, f: OutputField, p: nat): int {
    l.offset + f.lenOrInd + (if l.orientation == BIND_BY_COLUMN then 8 * p else l.orientation * p)
  }

  lemma PlacesMet(l: Layout, f: OutputField, p: nat)
    ensures ValuePlace(l, f, p) == Addr(l, f, 0, p) && LengthPlace(l, f, p) == Addr(l, f, 1, p)
  {
  }

  /** The application's reading of an integer variable. */
  function IntegerAt(ctype: CType, m: seq<Byte>, a: nat): int
    requires ctype.IsInteger() && a + ctype.FixedWidth() <= |m|
  {
    match ctype
    case CBit | CTinyInt => Unsigned(m[a..a + 1])
    case CSTinyInt => Signed(m[a..a + 1])
    case CShort => Signed(m[a..a + 2])
    case CUShort => Unsigned(m[a..a + 2])
    case CSLong | CLong => Signed(m[a..a + 4])
    case CULong => Unsigned(m[a..a + 4])
    case CSBigInt => Signed(m[a..a + 8])
    case CUBigInt => Unsigned(m[a..a + 8])
  }

  predicate AllZero(s: seq<Byte>) {
    forall i :: 0 <= i < |s| ==> s[i] == 0
  }

  /** The application's reading of a slot: the length word first, then the value it announces. */
  function Decode(m: seq<Byte>, l: Layout, f: OutputField, p: nat): Seen {
    var a, ia := ValuePlace(l, f, p), LengthPlace(l, f, p);
    if !(0 <= a && a + Width(f, 0) <= |m| && 0 <= ia && ia + 8 <= |m|) then Unreadable
    else
      var n := Signed(m[ia..ia + 8]);
      if n == SQL_NULL_DATA then
        SeenNull(if f.ctype == CChar then f.valueSize <= 0 || m[a] == 0 else AllZero(m[a..a + f.ctype.FixedWidth()]))
      else if f.ctype == CChar then
        var k := Max(0, Min(n, f.valueSize - 1));
        SeenText(m[a..a + k], f.valueSize > 0 && m[a + k] == 0, n)
      else if f.ctype == CNumeric then
        SeenNumeric(m[a], m[a + 1], m[a + 2], m[a + 3..a + 3 + Min(m[a], SQL_MAX_NUMERIC_LEN)], n)
      else if f.ctype.IsInteger() then SeenInteger(IntegerAt(f.ctype, m, a), n)
      else Unreadable
  }

  /** What a cell ought to read as. */
  function Expected(f: OutputField, col: Column): Seen {
    if OutcomeOf(f, col) in {Failed, Thrown} then Unreadable
    else if col.Null? then SeenNull(true)
    else
      match f.ctype
      case CChar =>
        if |col.text| < f.valueSize then SeenText(col.text, true, |col.text|)
        else if f.valueSize > 0 then SeenText(col.text[..f.valueSize - 1], true, |col.text|)
        else SeenText([], false, |col.text|)
      case CNumeric =>
        var d := col.dec.value;
        if |d.magnitude| <= 16 && d.scale <= 16
        then SeenNumeric(|d.magnitude|, d.scale % 256, d.sign, d.magnitude, |d.magnitude|)
        else SeenNumeric(16, 0, d.sign, d.whole.value, |d.magnitude|)
      case CBit | CTinyInt | CSTinyInt => SeenInteger(col.num.value, 1)
      case CShort | CUShort => SeenInteger(col.num.value, 2)
      case CSLong | CULong => SeenInteger(col.num.value, 4)
      case CLong | CSBigInt | CUBigInt => SeenInteger(col.num.value, 8)
  }

  /** The numbers of an integer type. */
  predicate InRange(ctype: CType, n: int) {
    match ctype
    case CBit | CTinyInt => 0 <= n < 0x100
    case CSTinyInt => -0x80 <= n < 0x80
    case CShort => -0x8000 <= n < 0x8000
    case CUShort => 0 <= n < 0x1_0000
    case CSLong | CLong => -0x8000_0000 <= n < 0x8000_0000
    case CULong => 0 <= n < 0x1_0000_0000
    case CSBigInt => -0x8000_0000_0000_0000 <= n < 0x8000_0000_0000_0000
    case CUBigInt => 0 <= n < 0x1_0000_0000_0000_0000
    case _ => false
  }

  /** A column whose text length and integer value fit the words that carry them. */
  predicate Representable(f: OutputField, col: Column) {
    || col.Null?
    || (if f.ctype == CChar then |col.text| < TWO_63
        else if f.ctype == CNumeric then col.dec.None? || |col.dec.value.magnitude| < TWO_63
        else col.num.None? || InRange(f.ctype, col.num.value))
  }

  lemma SlotReadsBack(m: seq<Byte>, l: Layout, f: OutputField, p: nat, col: Column)
    requires Holds(m, l, f, p, col) && OutcomeOf(f, col) !in {Failed, Thrown} && Representable(f, col)
    requires Addr(l, f, 0, p) + Width(f, 0) <= |m|
    ensures Decode(m, l, f, p) == Expected(f, col)
  {
    hide LittleEndian, Signed, Unsigned, Pow256, Addr, ImageOf, Decode, Expected, Representable, Width, OutcomeOf;
    var word := ImageOf(f, col).indicator;
    PlacesMet(l, f, p);
    WordSizes();
    IndicatorFits(f, col);
    SignedOfLittleEndian(word, 8);
    if col.Null? {
      NullSlot(m, l, f, p);
    } else if f.ctype == CChar {
      TextSlot(m, l, f, p, col);
    } else if f.ctype == CNumeric {
      NumericSlot(m, l, f, p, col);
    } else {
      UnsupportedStops(f, col);
      IntegerSlot(m, l, f, p, col);
    }
  }

  /** A slot in memory that has the value bytes and the length word of a cell. */
  ghost predicate SlotHas(m: seq<Byte>, l: Layout, f: OutputField, p: nat, col: Column) {
    var a, ia, im := ValuePlace(l, f, p), LengthPlace(l, f, p), ImageOf(f, col);
    && 0 <= a && a + Width(f, 0) <= |m| && 0 <= ia && ia + 8 <= |m| && a + |im.data| <= |m|
    && m[a..a + |im.data|] == im.data && Signed(m[ia..ia + 8]) == im.indicator
  }

  lemma NullSlot(m: seq<Byte>, l: Layout, f: OutputField, p: nat)
    requires SlotHas(m, l, f, p, Null) && OutcomeOf(f, Null) !in {Failed, Thrown}
    requires ImageOf(f, Null).indicator == SQL_NULL_DATA
    ensures Decode(m, l, f, p) == Expected(f, Null)
  {
    hide Signed, ValuePlace, LengthPlace, ImageOf, AllZero, IntegerAt;
    NullReadsBack(m, ValuePlace(l, f, p), f);
  }

  lemma TextSlot(m: seq<Byte>, l: Layout, f: OutputField, p: nat, col: Column)
    requires SlotHas(m, l, f, p, col) && f.ctype == CChar && col.Value?
    requires ImageOf(f, col).indicator == |col.text|
    ensures Decode(m, l, f, p) == Expected(f, col)
  {
    hide Signed, ValuePlace, LengthPlace, ImageOf, AllZero, IntegerAt, Expected;
    TextReadsBack(m, ValuePlace(l, f, p), f, col);
  }

  lemma NumericSlot(m: seq<Byte>, l: Layout, f: OutputField, p: nat, col: Column)
    requires SlotHas(m, l, f, p, col) && f.ctype == CNumeric && col.Value?
    requires OutcomeOf(f, col) !in {Failed, Thrown} && ImageOf(f, col) == NumericImage(col.dec.value)
    ensures Decode(m, l, f, p) == Expected(f, col)
  {
    hide Signed, ValuePlace, LengthPlace, ImageOf, AllZero, IntegerAt;
    ImageFits(f, col);
    NumericReadsBack(m, ValuePlace(l, f, p), col.dec.value);
  }

  lemma IntegerSlot(m: seq<Byte>, l: Layout, f: OutputField, p: nat, col: Column)
    requires SlotHas(m, l, f, p, col) && f.ctype.IsInteger() && col.Value? && Representable(f, col)
    requires OutcomeOf(f, col) !in {Failed, Thrown}
    requires ImageOf(f, col).data == LittleEndian(col.num.value, f.ctype.FixedWidth())
    requires ImageOf(f, col).indicator == Expected(f, col).length
    ensures Decode(m, l, f, p) == Expected(f, col)
  {
    hide Signed, Unsigned, LittleEndian, ValuePlace, LengthPlace, ImageOf, AllZero, IntegerAt, InRange;
    IntegerReadsBack(f.ctype, m, ValuePlace(l, f, p), col.num.value);
  }

  /** The length word of a cell. */
  lemma IndicatorFits(f: OutputField, col: Column)
    requires OutcomeOf(f, col) !in {Failed, Thrown} && Representable(f, col)
    ensures -TWO_63 <= ImageOf(f, col).indicator < TWO_63
    ensures ImageOf(f, col).indicator == SQL_NULL_DATA <==> col.Null?
    ensures col.Value? && f.ctype == CChar ==> ImageOf(f, col).indicator == |col.text|
    ensures col.Value? && f.ctype == CNumeric ==> ImageOf(f, col) == NumericImage(col.dec.value)
    ensures col.Value? && f.ctype.IsInteger() ==>
      && ImageOf(f, col).data == LittleEndian(col.num.value, f.ctype.FixedWidth())
      && ImageOf(f, col).indicator == Expected(f, col).length
  {
    hide LittleEndian, InRange;
  }

  lemma {:induction false} ZerosOfZero(k: nat)
    ensures AllZero(LittleEndian(0, k))
    decreases k
  {
    if k > 0 {
      ZerosOfZero(k - 1);
    }
  }

  lemma NullReadsBack(m: seq<Byte>, a: nat, f: OutputField)
    requires f.ctype != CUnsupported && a + Width(f, 0) <= |m| && a + |ImageOf(f, Null).data| <= |m|
    requires m[a..a + |ImageOf(f, Null).data|] == ImageOf(f, Null).data
    ensures if f.ctype == CChar then f.valueSize <= 0 || m[a] == 0 else AllZero(m[a..a + f.ctype.FixedWidth()])
  {
    hide LittleEndian;
    if f.ctype == CChar {
      if f.valueSize > 0 {
        assert m[a] == m[a..a + 1][0];
      }
    } else {
      ZerosOfZero(f.ctype.FixedWidth());
      assert |ImageOf(f, Null).data| == f.ctype.FixedWidth();
    }
  }

  lemma TextReadsBack(m: seq<Byte>, a: nat, f: OutputField, col: Column)
    requires f.ctype == CChar && col.Value? && a + Width(f, 0) <= |m| && a + |ImageOf(f, col).data| <= |m|
    requires m[a..a + |ImageOf(f, col).data|] == ImageOf(f, col).data
    ensures var k := Max(0, Min(|col.text|, f.valueSize - 1));
            SeenText(m[a..a + k], f.valueSize > 0 && m[a + k] == 0, |col.text|) == Expected(f, col)
  {
    var im, k := ImageOf(f, col), Max(0, Min(|col.text|, f.valueSize - 1));
    if f.valueSize > 0 {
      assert im.data == col.text[..k] + [0] && |im.data| == k + 1;
      assert m[a + k] == m[a..a + |im.data|][k];
      assert m[a..a + k] == m[a..a + |im.data|][..k];
      if k == |col.text| {
        assert col.text[..k] == col.text;
      }
    }
  }

  lemma NumericReadsBack(m: seq<Byte>, a: nat, d: Number)
    requires !NumericImage(d).outcome.Stops() && a + 3 + SQL_MAX_NUMERIC_LEN <= |m|
    requires m[a..a + |NumericImage(d).data|] == NumericImage(d).data
    ensures NumericImage(d).indicator == |d.magnitude|
    ensures var digits := m[a + 3..a + 3 + Min(m[a], SQL_MAX_NUMERIC_LEN)];
            (m[a], m[a + 1], m[a + 2], digits)
            == if |d.magnitude| <= 16 && d.scale <= 16 then (|d.magnitude|, d.scale % 256, d.sign, d.magnitude)
               else (16, 0, d.sign, d.whole.value)
  {
    var data, digits := NumericImage(d).data, if d.Fits() then d.magnitude else d.whole.value;
    var head := data[..3];
    assert data == head + digits;
    assert m[a] == m[a..a + |data|][0] && m[a + 1] == m[a..a + |data|][1] && m[a + 2] == m[a..a + |data|][2];
    assert m[a + 3..a + 3 + |digits|] == m[a..a + |data|][3..];
  }

  lemma WordReadsBack(n: int, w: nat)
    requires w >= 1
    ensures -Pow256(w) <= 2 * n < Pow256(w) ==> Signed(LittleEndian(n, w)) == n
    ensures 0 <= n < Pow256(w) ==> Unsigned(LittleEndian(n, w)) == n
  {
    hide LittleEndian, Signed, Unsigned, Pow256;
    if -Pow256(w) <= 2 * n < Pow256(w) {
      SignedOfLittleEndian(n, w);
    }
    if 0 <= n < Pow256(w) {
      UnsignedOfLittleEndian(n, w);
    }
  }

  lemma IntegerReadsBack(ctype: CType, m: seq<Byte>, a: nat, n: int)
    requires ctype.IsInteger() && InRange(ctype, n) && a + ctype.FixedWidth() <= |m|
    requires m[a..a + ctype.FixedWidth()] == LittleEndian(n, ctype.FixedWidth())
    ensures IntegerAt(ctype, m, a) == n
  {
    hide LittleEndian, Signed, Unsigned, Pow256;
    WordSizes();
    WordReadsBack(n, ctype.FixedWidth());
  }

  /** A table row as the application reads it from slot `p`: one entry for each column, bound or not. */
  function RowRead(m: seq<Byte>, l: Layout, fields: seq<OutputField>, p: nat): (r: seq<Seen>)
    ensures |r| == |fields|
    ensures forall c :: 0 <= c < |fields| ==>
      r[c] == if fields[c].targetValue == 0 then NotBound else Decode(m, l, fields[c], p)
  {
    seq(|fields|, c requires 0 <= c < |fields| =>
          if fields[c].targetValue == 0 then NotBound else Decode(m, l, fields[c], p))
  }

  /** What a result row ought to read as. */
  function RowExpected(fields: seq<OutputField>, row: Row): (r: seq<Seen>)
    requires |fields| <= |row|
    ensures |r| == |fields|
    ensures forall c :: 0 <= c < |fields| ==>
      r[c] == if fields[c].targetValue == 0 then NotBound else Expected(fields[c], row[c])
  {
    seq(|fields|, c requires 0 <= c < |fields| =>
          if fields[c].targetValue == 0 then NotBound else Expected(fields[c], row[c]))
  }

  predicate RowRepresentable(fields: seq<OutputField>, row: Row)
    requires |fields| <= |row|
  {
    forall c :: 0 <= c < |fields| && fields[c].Bound() ==> Representable(fields[c], row[c])
  }

  /** A slot that holds a row is read as that row. */
  lemma RowReadsBack(m: seq<Byte>, l: Layout, fields: seq<OutputField>, base: int, b: nat, p: nat, row: Row)
    requires WellFormed(l, fields, base, b, |m|) && p < b
    requires |fields| <= |row| && RowConverts(fields, 0, row) && RowRepresentable(fields, row)
    requires HoldsRow(m, l, fields, p, row)
    ensures RowRead(m, l, fields, p) == RowExpected(fields, row)
  {
    hide WellFormed, Holds, Decode, Expected, Representable, Addr, ImageOf, OutcomeOf;
    forall c | 0 <= c < |fields| && fields[c].Bound()
      ensures Decode(m, l, fields[c], p) == Expected(fields[c], row[c])
    {
      assert !Stopping(fields[c], row[c]);
      SlotInside(l, fields, base, b, |m|, c, 0, p);
      SlotReadsBack(m, l, fields[c], p, row[c]);
    }
    assert RowRead(m, l, fields, p) == RowExpected(fields, row);
  }

  /** Two bindings of the same columns: the same types and sizes, wherever the buffers are. */
  predicate SameShape(fields: seq<OutputField>, fields': seq<OutputField>) {
    |fields| == |fields'| && forall c :: 0 <= c < |fields| ==>
      && fields[c].Bound() == fields'[c].Bound()
      && fields[c].ctype == fields'[c].ctype && fields[c].valueSize == fields'[c].valueSize
  }

  /** What a row ought to read as, and whether it converts, does not depend on where the buffers are. */
  lemma ExpectedAgree(fields: seq<OutputField>, fields': seq<OutputField>, row: Row)
    requires SameShape(fields, fields') && |fields| <= |row|
    ensures RowExpected(fields, row) == RowExpected(fields', row)
    ensures RowRepresentable(fields, row) == RowRepresentable(fields', row)
    ensures RowConverts(fields, 0, row) == RowConverts(fields', 0, row)
  {
    forall c | 0 <= c < |fields| && fields[c].Bound()
      ensures Expected(fields[c], row[c]) == Expected(fields'[c], row[c])
      ensures Representable(fields[c], row[c]) == Representable(fields'[c], row[c])
      ensures Stopping(fields[c], row[c]) == Stopping(fields'[c], row[c])
    {
    }
  }
}
