/** A parsed Java class as the offline converter holds it in memory while it compacts the
    class (classCvt/class.h): the constant pool with the two marks each constant carries,
    the declared fields and methods, their attributes and the code of each method as the
    list of instructions the basic-block engine hands to a pass. */
module ConvClass {
  import opened Bytes

  // Constant tags.
  const CString: byte := 1
  const CInt: byte := 3
  const CFloat: byte := 4
  const CLong: byte := 5
  const CDouble: byte := 6
  const CClass: byte := 7
  const CStrRef: byte := 8
  const CField: byte := 9
  const CMethod: byte := 10
  const CInterface: byte := 11
  const CNameType: byte := 12
  /** The second slot of a `long` or `double`. */
  const CInvalid: byte := 0xEE

  const AccStatic := 0x0008

  /** One constant: its tag; the first and second 16-bit words of its data, which for the
      reference constants are the indices they name (`Class` and `StrRef` a string,
      `Field`, `Method` and `Interface` a class and a name-and-type, `NameType` a name
      and a descriptor string); its first four data bytes read as one 32-bit value (the
      value of an `int` or `float`); and the characters of a string. */
  datatype Const = Const(tag: byte, first: int, second: int, raw: word, text: seq<byte>)

  /** Constants that name other constants by their first word. */
  predicate NamesOne(tag: byte) {
    tag == CClass || tag == CStrRef
  }

  /** Constants that name other constants by both words. */
  predicate NamesTwo(tag: byte) {
    tag == CField || tag == CMethod || tag == CInterface || tag == CNameType
  }

  datatype Exc = Exc(startPc: int, endPc: int, handlerPc: int, catchType: int)

  /** One instruction as a pass sees it: the opcode, whether it was specialised, the
      operand length and the operand bytes (eight of them). */
  datatype Instr = Instr(op: byte, wide: bool, numBytes: int, bytes: seq<byte>)

  predicate InstrOk(ins: Instr) {
    |ins.bytes| == 8
  }

  /** An attribute: a code attribute carries the method's instructions, its exception
      table and attributes of its own; every other attribute is opaque data. */
  datatype Attr =
    | Generic(nameIdx: int, data: seq<byte>)
    | Code(nameIdx: int, code: seq<Instr>, excs: seq<Exc>, attrs: seq<Attr>)

  /** A field or a method. `offset` and `typ` are filled in for fields by the compactor. */
  datatype Member = Member(access: int, nameIdx: int, descrIdx: int, attrs: seq<Attr>, offset: int, typ: byte)

  /** Two member lists that differ at most in the members' attributes. */
  ghost predicate SameHeads(a: seq<Member>, b: seq<Member>) {
    |a| == |b| && forall k | 0 <= k < |a| :: a[k].(attrs := b[k].attrs) == b[k]
  }

  predicate IsStatic(access: int) {
    (access / AccStatic) % 2 == 1
  }

  class JClass {
    /** Constant `i + 1` is `pool[i]`, with its marks `used[i]` and `direct[i]`. */
    const pool: array<Const>
    const used: array<bool>
    const direct: array<bool>
    var thisClass: int
    var superClass: int
    const interfaces: array<int>
    const fields: array<Member>
    const methods: array<Member>
    var attrs: seq<Attr>
    /** The export sizes: constants below `addressable` get addresses, those below
        `placed` get their data written. */
    var addressable: int
    var placed: int

    ghost predicate Valid()
      reads this
    {
      used != direct && fields != methods &&
      used.Length == pool.Length && direct.Length == pool.Length && pool.Length + 1 < 0x1_0000 &&
      fields.Length < 0x1_0000 && methods.Length < 0x1_0000 && interfaces.Length < 0x1_0000
    }

    /** A class as the reader leaves it: nothing marked yet. */
    constructor (pool: seq<Const>, thisClass: int, superClass: int, interfaces: seq<int>,
                 fields: seq<Member>, methods: seq<Member>, attrs: seq<Attr>)
      requires |pool| + 1 < 0x1_0000 && |fields| < 0x1_0000 && |methods| < 0x1_0000 && |interfaces| < 0x1_0000
      ensures Valid()
      ensures this.pool[..] == pool && this.fields[..] == fields && this.methods[..] == methods
      ensures this.interfaces[..] == interfaces && this.attrs == attrs
      ensures this.thisClass == thisClass && this.superClass == superClass
      ensures forall i | 0 <= i < |pool| :: !this.used[i] && !this.direct[i]
    {
      this.pool := new Const[|pool|](i requires 0 <= i < |pool| => pool[i]);
      this.used := new bool[|pool|](i => false);
      this.direct := new bool[|pool|](i => false);
      this.interfaces := new int[|interfaces|](i requires 0 <= i < |interfaces| => interfaces[i]);
      this.fields := new Member[|fields|](i requires 0 <= i < |fields| => fields[i]);
      this.methods := new Member[|methods|](i requires 0 <= i < |methods| => methods[i]);
      this.thisClass := thisClass;
      this.superClass := superClass;
      this.attrs := attrs;
      this.addressable := 0;
      this.placed := 0;
    }
  }
}
