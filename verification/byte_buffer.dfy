/** The sequential reads of `pumpkin_protocol`'s `ByteBuffer`, kept abstract.
    A reader takes the unread bytes and either fails or returns a value together
    with the bytes it left unread. The primitive readers (VarInt, length-prefixed
    string, 16-byte UUID, boolean flag, list count) are parameters; the writers beside
    them are the proxy's encoders, used only to state what a well-formed payload is. */
module ByteBuffer {
  import opened Wrappers
  import opened Numeric

  type Reader<T> = seq<Byte> -> Option<(T, seq<Byte>)>
  type Writer<-T> = T -> seq<Byte>

  /** A 128-bit UUID, read most-significant byte first. */
  type Uuid = x: int | 0 <= x < 0x1_0000_0000_0000_0000_0000_0000_0000_0000

  datatype Wire = Wire(
    readVarInt: Reader<I32>, writeVarInt: Writer<I32>,
    readString: Reader<string>, writeString: Writer<string>,
    readUuid: Reader<Uuid>, writeUuid: Writer<Uuid>,
    readBool: Reader<bool>, writeBool: Writer<bool>,
    readCount: Reader<nat>, writeCount: Writer<nat>)

  /** Longest encoded string the protocol's string reader accepts, in bytes. */
  const MaxStringBytes: nat := 32767

  /** A string short enough to be within the string reader's cap however its characters
      are encoded: UTF-8 needs at most four bytes per character. */
  predicate StringFits(t: string) {
    4 * |t| <= MaxStringBytes
  }

  /** A list count, written as a VarInt, is below 2^31. */
  predicate CountFits(n: nat) {
    n < 0x8000_0000
  }

  /** On every value that `fits`, `read` recovers exactly what `write` produced and
      leaves any following bytes unread. */
  ghost predicate Inverts<T(!new)>(read: Reader<T>, write: Writer<T>, fits: T -> bool) {
    forall v, rest :: fits(v) ==> read(write(v) + rest) == Some((v, rest))
  }

  ghost predicate VarIntLaw(w: Wire) {
    Inverts(w.readVarInt, w.writeVarInt, (v: I32) => true)
  }

  ghost predicate StringLaw(w: Wire) {
    Inverts(w.readString, w.writeString, StringFits)
  }

  ghost predicate UuidLaw(w: Wire) {
    Inverts(w.readUuid, w.writeUuid, (id: Uuid) => true)
  }

  ghost predicate BoolLaw(w: Wire) {
    Inverts(w.readBool, w.writeBool, (b: bool) => true)
  }

  ghost predicate CountLaw(w: Wire) {
    Inverts(w.readCount, w.writeCount, CountFits)
  }

  /** Every primitive reader inverts its writer on the values the protocol can carry. */
  ghost predicate Lawful(w: Wire) {
    VarIntLaw(w) && StringLaw(w) && UuidLaw(w) && BoolLaw(w) && CountLaw(w)
  }

  /** `ByteBuffer::get_option`: a presence flag, then the value only when the flag is set. */
  function GetOption<T>(w: Wire, inner: Reader<T>, s: seq<Byte>): (r: Option<(Option<T>, seq<Byte>)>)
    ensures w.readBool(s).None? ==> r.None?
    ensures w.readBool(s).Some? && !w.readBool(s).value.0 ==> r == Some((None, w.readBool(s).value.1))
    ensures w.readBool(s).Some? && w.readBool(s).value.0 ==>
      var rest := w.readBool(s).value.1;
      && (r.Some? <==> inner(rest).Some?)
      && (r.Some? ==> r.value == (Some(inner(rest).value.0), inner(rest).value.1))
  {
    match w.readBool(s)
    case None => None
    case Some((present, rest)) =>
      if !present then Some((None, rest))
      else
        match inner(rest)
        case None => None
        case Some((v, rest')) => Some((Some(v), rest'))
  }

  function PutOption<T>(w: Wire, write: Writer<T>, o: Option<T>): seq<Byte> {
    match o
    case None => w.writeBool(false)
    case Some(v) => w.writeBool(true) + write(v)
  }

  /** The tagged option survives the round trip: absent and present are never confused. */
  lemma GetOptionRoundTrip<T(!new)>(
    w: Wire, inner: Reader<T>, write: Writer<T>, fits: T -> bool, o: Option<T>, rest: seq<Byte>)
    requires BoolLaw(w)
    requires Inverts(inner, write, fits)
    requires o.Some? ==> fits(o.value)
    ensures GetOption(w, inner, PutOption(w, write, o) + rest) == Some((o, rest))
  {
    match o
    case None =>
      assert w.readBool(w.writeBool(false) + rest) == Some((false, rest));
    case Some(v) =>
      assert PutOption(w, write, o) + rest == w.writeBool(true) + (write(v) + rest);
      assert w.readBool(w.writeBool(true) + (write(v) + rest)) == Some((true, write(v) + rest));
      assert inner(write(v) + rest) == Some((v, rest));
  }

  /** Reads exactly `n` elements in order; fails if any element fails. */
  function GetN<T>(inner: Reader<T>, n: nat, s: seq<Byte>): (r: Option<(seq<T>, seq<Byte>)>)
    ensures r.Some? ==> |r.value.0| == n
    decreases n
  {
    if n == 0 then Some(([], s))
    else
      match inner(s)
      case None => None
      case Some((v, rest)) =>
        match GetN(inner, n - 1, rest)
        case None => None
        case Some((vs, rest')) => Some(([v] + vs, rest'))
  }

  /** Where element `k` starts once the `k` elements before it have been read one after
      another, or `None` if one of those reads fails. */
  function Cursor<T>(inner: Reader<T>, k: nat, s: seq<Byte>): Option<seq<Byte>>
    decreases k
  {
    if k == 0 then Some(s)
    else
      match inner(s)
      case None => None
      case Some((_, rest)) => Cursor(inner, k - 1, rest)
  }

  /** Each of the first `n` elements, read one after another from `s`, reads. */
  ghost predicate AllRead<T>(inner: Reader<T>, n: nat, s: seq<Byte>) {
    forall k :: 0 <= k < n ==> Cursor(inner, k, s).Some? && inner(Cursor(inner, k, s).value).Some?
  }

  /** A failing element fails the whole read: no partial list is returned. */
  lemma {:induction false} GetNFailsAtElement<T>(inner: Reader<T>, n: nat, s: seq<Byte>, k: nat)
    requires k < n
    requires Cursor(inner, k, s).Some? && inner(Cursor(inner, k, s).value).None?
    ensures GetN(inner, n, s).None?
    decreases k
  {
    if k > 0 {
      GetNFailsAtElement(inner, n - 1, inner(s).value.1, k - 1);
    }
  }

  /** When every element reads, so does the whole list. */
  lemma {:induction false} GetNSucceeds<T>(inner: Reader<T>, n: nat, s: seq<Byte>)
    requires AllRead(inner, n, s)
    ensures GetN(inner, n, s).Some?
    decreases n
  {
    if n > 0 {
      assert Cursor(inner, 0, s) == Some(s);
      var rest := inner(s).value.1;
      forall k | 0 <= k < n - 1
        ensures Cursor(inner, k, rest).Some? && inner(Cursor(inner, k, rest).value).Some?
      {
        assert Cursor(inner, k + 1, s) == Cursor(inner, k, rest);
      }
      GetNSucceeds(inner, n - 1, rest);
    }
  }

  /** Element `k` of a successful read is the value read at the `k`-th position, and the
      bytes left over are those after the last element. */
  lemma {:induction false} GetNElements<T>(inner: Reader<T>, n: nat, s: seq<Byte>)
    requires GetN(inner, n, s).Some?
    ensures forall k :: 0 <= k < n ==>
      && Cursor(inner, k, s).Some?
      && inner(Cursor(inner, k, s).value).Some?
      && GetN(inner, n, s).value.0[k] == inner(Cursor(inner, k, s).value).value.0
    ensures Cursor(inner, n, s) == Some(GetN(inner, n, s).value.1)
    decreases n
  {
    if n > 0 {
      var rest := inner(s).value.1;
      GetNElements(inner, n - 1, rest);
      forall k | 0 <= k < n
        ensures && Cursor(inner, k, s).Some?
                && inner(Cursor(inner, k, s).value).Some?
                && GetN(inner, n, s).value.0[k] == inner(Cursor(inner, k, s).value).value.0
      {
        if k > 0 {
          assert Cursor(inner, k, s) == Cursor(inner, k - 1, rest);
        }
      }
      assert Cursor(inner, n, s) == Cursor(inner, n - 1, rest);
    }
  }

  function PutN<T>(write: Writer<T>, vs: seq<T>): seq<Byte>
    decreases |vs|
  {
    if |vs| == 0 then [] else write(vs[0]) + PutN(write, vs[1..])
  }

  lemma {:induction false} GetNRoundTrip<T(!new)>(
    inner: Reader<T>, write: Writer<T>, fits: T -> bool, vs: seq<T>, rest: seq<Byte>)
    requires Inverts(inner, write, fits)
    requires forall i :: 0 <= i < |vs| ==> fits(vs[i])
    ensures GetN(inner, |vs|, PutN(write, vs) + rest) == Some((vs, rest))
    decreases |vs|
  {
    if |vs| > 0 {
      var tail := PutN(write, vs[1..]) + rest;
      assert PutN(write, vs) + rest == write(vs[0]) + tail;
      assert fits(vs[0]);
      assert inner(write(vs[0]) + tail) == Some((vs[0], tail));
      assert forall i :: 0 <= i < |vs[1..]| ==> fits(vs[1..][i]) by {
        forall i | 0 <= i < |vs[1..]| ensures fits(vs[1..][i]) {
          assert vs[1..][i] == vs[i + 1];
        }
      }
      GetNRoundTrip(inner, write, fits, vs[1..], rest);
      assert [vs[0]] + vs[1..] == vs;
      assert GetN(inner, |vs|, write(vs[0]) + tail) == Some(([vs[0]] + vs[1..], rest));
    } else {
      assert PutN(write, vs) + rest == rest;
      assert vs == [];
    }
  }

  /** `ByteBuffer::get_list`: a count, then that many elements. All or nothing. */
  function GetList<T>(w: Wire, inner: Reader<T>, s: seq<Byte>): (r: Option<(seq<T>, seq<Byte>)>)
    ensures w.readCount(s).None? ==> r.None?
    ensures r.Some? ==> |r.value.0| == w.readCount(s).value.0
  {
    match w.readCount(s)
    case None => None
    case Some((n, rest)) => GetN(inner, n, rest)
  }

  /** A list whose `k`-th element fails to read fails as a whole. */
  lemma GetListFailsAtElement<T>(w: Wire, inner: Reader<T>, s: seq<Byte>, k: nat)
    requires w.readCount(s).Some?
    requires k < w.readCount(s).value.0
    requires var elements := w.readCount(s).value.1;
      Cursor(inner, k, elements).Some? && inner(Cursor(inner, k, elements).value).None?
    ensures GetList(w, inner, s).None?
  {
    GetNFailsAtElement(inner, w.readCount(s).value.0, w.readCount(s).value.1, k);
  }

  /** The list is read whole exactly when the count and every counted element read;
      element `k` is then the value read at the `k`-th position after the count. */
  lemma GetListElements<T>(w: Wire, inner: Reader<T>, s: seq<Byte>)
    ensures GetList(w, inner, s).Some? <==>
      && w.readCount(s).Some?
      && AllRead(inner, w.readCount(s).value.0, w.readCount(s).value.1)
    ensures GetList(w, inner, s).Some? ==>
      var (n, elements) := w.readCount(s).value;
      forall k :: 0 <= k < n ==>
        && Cursor(inner, k, elements).Some?
        && inner(Cursor(inner, k, elements).value).Some?
        && GetList(w, inner, s).value.0[k] == inner(Cursor(inner, k, elements).value).value.0
  {
    if w.readCount(s).Some? {
      var (n, elements) := w.readCount(s).value;
      if GetN(inner, n, elements).Some? {
        GetNElements(inner, n, elements);
      }
      if AllRead(inner, n, elements) {
        GetNSucceeds(inner, n, elements);
      }
    }
  }

  function PutList<T>(w: Wire, write: Writer<T>, vs: seq<T>): seq<Byte> {
    w.writeCount(|vs|) + PutN(write, vs)
  }

  /** The list survives the round trip with its length and order. */
  lemma GetListRoundTrip<T(!new)>(
    w: Wire, inner: Reader<T>, write: Writer<T>, fits: T -> bool, vs: seq<T>, rest: seq<Byte>)
    requires CountLaw(w)
    requires CountFits(|vs|)
    requires Inverts(inner, write, fits)
    requires forall i :: 0 <= i < |vs| ==> fits(vs[i])
    ensures GetList(w, inner, PutList(w, write, vs) + rest) == Some((vs, rest))
  {
    var body := PutN(write, vs) + rest;
    assert PutList(w, write, vs) + rest == w.writeCount(|vs|) + body;
    assert w.readCount(w.writeCount(|vs|) + body) == Some((|vs|, body));
    GetNRoundTrip(inner, write, fits, vs, rest);
  }
}
