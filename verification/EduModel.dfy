/**
  The data of the EDU encoder/decoder: rules, programs, and the C structures they
  walk over.  A structure is a map from field offset to field; memory that is not
  mentioned is zero, as it is after the memset that precedes every decode.
 */
module EduModel {

  type byte = x: int | 0 <= x < 256

  /** The C type of offsets and sizes in rules. */
  type long = x: int | -0x8000_0000_0000_0000 <= x < 0x8000_0000_0000_0000

  datatype Option<+T> = None | Some(value: T)

  /** The built-in programs for plain numbers (ncs_edp_float and ncs_edp_double are aliases of Int32 and Int64). */
  datatype Kind = NcsBool | Uns8 | Uns16 | Uns32 | Uns64 | Int8 | Int16 | Int32 | Int64 | Short | Int | Char

  datatype Edp = Basic(kind: Kind) | Str | User(id: nat)

  /** The EDQ_ bits of fld2. */
  datatype Attr = Attr(lnklist: bool, arr: bool, pointer: bool, varLen: bool)

  const Plain := Attr(false, false, false, false)

  datatype Instr = Start | Exec | ExecExt | TestLlPtr | Test | VerUsr | VerGe | End

  /** What an offset of a structure holds. */
  datatype Field =
    | Num(n: int)
    | Text(text: Option<seq<byte>>)
    | Rec(fields: map<int, Field>)
    | Vec(elems: seq<Field>)
    | Ref(target: Option<Field>)

  type Fields = map<int, Field>

  /** fld7: one pointer that EDU_TEST and EDU_VER_USR call and EDU_VER_GE reads as a version. */
  datatype Routine =
    | NoRoutine
    | Routine(onField: Field -> int, onVersion: nat -> int, minVersion: nat)

  datatype Rule = Rule(instr: Instr, fld1: Edp, fld2: Attr, fld3: Edp, nxtLbl: int, fld5: long, fld6: long,
    fld7: Routine)

  type Prog = seq<Rule>

  /** The reserved labels, as the int the C enumerators convert to. */
  const EDU_NEXT: int := -16
  const EDU_EXIT: int := -15
  const EDU_SAME: int := -14
  const EDU_FAIL: int := -13

  /**
    The user programs by identity, the version agreed with the peer, the programs
    whose decode allocates a missing destination, a rank that falls along every
    EDU_EXEC reference, and the bytes a reserved but unwritten count happens to hold.
   */
  datatype Env = Env(progs: map<nat, Prog>, version: nat, allocs: set<nat>, rank: map<nat, nat>, junk: (byte, byte)) {

    function ProgOf(id: nat): Prog {
      if id in progs then progs[id] else []
    }

    function RankOf(edp: Edp): nat {
      if edp.User? then 1 + (if edp.id in rank then rank[edp.id] else 0) else 0
    }

    /** ncs_edu_run_edp and the encoder both learn "linked list" from the EDU_START rule. */
    predicate IsList(edp: Edp) {
      edp.User? && |ProgOf(edp.id)| > 0 && ProgOf(edp.id)[0].fld2.lnklist
    }
  }

  /** EDU_START names the program it belongs to. */
  predicate OwnName(env: Env, id: nat) {
    env.ProgOf(id) != [] ==> env.ProgOf(id)[0].fld1 == User(id)
  }

  /** sizeof of the wire form; a bool is four bytes on the wire. */
  function Width(k: Kind): nat {
    match k
    case Uns8 | Int8 | Char => 1
    case Uns16 | Int16 | Short => 2
    case Uns32 | Int32 | Int | NcsBool => 4
    case Uns64 | Int64 => 8
  }

  predicate Signed(k: Kind) {
    k.Int8? || k.Int16? || k.Int32? || k.Int64? || k.Short? || k.Int?
  }

  function Pow256(w: nat): (p: nat)
    ensures p >= 1
  {
    if w == 0 then 1 else 256 * Pow256(w - 1)
  }

  /** The values a C object of this kind can hold. */
  predicate InRange(k: Kind, n: int) {
    if k.NcsBool? then n == 0 || n == 1
    else if Signed(k) then -(Pow256(Width(k)) / 2) <= n < Pow256(Width(k)) / 2
    else 0 <= n < Pow256(Width(k))
  }

  /** Network order, most significant byte first. */
  function ToWire(w: nat, v: nat): (b: seq<byte>)
    ensures |b| == w
  {
    if w == 0 then [] else ToWire(w - 1, v / 256) + [v % 256]
  }

  function FromWire(b: seq<byte>): nat {
    if b == [] then 0 else 256 * FromWire(b[..|b| - 1]) + b[|b| - 1]
  }

  lemma {:induction false} WireInverse(w: nat, v: nat)
    requires v < Pow256(w)
    ensures FromWire(ToWire(w, v)) == v
  {
    if w > 0 {
      var b := ToWire(w, v);
      assert b[..|b| - 1] == ToWire(w - 1, v / 256);
      WireInverse(w - 1, v / 256);
    }
  }

  /** The unsigned pattern written for n, and the value read back from a pattern. */
  function Pattern(k: Kind, n: int): nat {
    if k.NcsBool? then (if n == 0 then 0 else 1) else n % Pow256(Width(k))
  }

  function Meaning(k: Kind, v: nat): int {
    if k.NcsBool? then (if v == 0 then 0 else 1)
    else if Signed(k) && v >= Pow256(Width(k)) / 2 then v - Pow256(Width(k))
    else v
  }

  function EncBasic(k: Kind, n: int): (b: seq<byte>)
    ensures |b| == Width(k)
  {
    ToWire(Width(k), Pattern(k, n))
  }

  function DecBasic(k: Kind, b: seq<byte>): int
    requires |b| == Width(k)
  {
    Meaning(k, FromWire(b))
  }

  lemma PowerOfWidth(k: Kind)
    ensures Pow256(Width(k)) ==
      (match Width(k) case 1 => 0x100 case 2 => 0x1_0000 case 4 => 0x1_0000_0000 case _ => 0x1_0000_0000_0000_0000)
  {
    assert Pow256(1) == 0x100;
    assert Pow256(2) == 0x1_0000;
    assert Pow256(3) == 0x100_0000;
    assert Pow256(4) == 0x1_0000_0000;
    assert Pow256(6) == 0x1_0000_0000_0000;
    assert Pow256(8) == 0x1_0000_0000_0000_0000;
  }

  lemma Complement(p: int, n: int)
    requires 0 < p && -p < n < p
    ensures n % p == if n < 0 then n + p else n
  {
    if n < 0 {
      assert n % p == (n + p) % p;
    }
  }

  /** Every number of every built-in kind survives the wire. */
  lemma BasicRoundTrip(k: Kind, n: int)
    requires InRange(k, n)
    ensures DecBasic(k, EncBasic(k, n)) == n
  {
    hide Pow256, ToWire, FromWire, Width;
    PowerOfWidth(k);
    Complement(Pow256(Width(k)), n);
    WireInverse(Width(k), Pattern(k, n));
  }

  function U16(v: nat): (b: seq<byte>)
    ensures |b| == 2
  {
    ToWire(2, v % 0x1_0000)
  }

  function FromU16(b: seq<byte>): nat
    requires |b| == 2
  {
    FromWire(b)
  }

  lemma U16RoundTrip(v: nat)
    requires v < 0x1_0000
    ensures FromU16(U16(v)) == v
  {
    PowerOfWidth(Uns16);
    WireInverse(2, v);
  }
}
