/**
  The user program: pybricks joins several compiled scripts in one block of memory, and
  bricks/_common/micropython.c looks them up by name.
 */
module MpyContainer {
  import opened Common
  import opened LittleEndian

  /** One script: its name as a C string without terminator, and its data. */
  datatype Entry = Entry(name: seq<byte>, payload: seq<byte>) {
    predicate Valid() {
      0 !in name && |payload| < Span(4)
    }
  }

  predicate AllValid(es: seq<Entry>) {
    forall i | 0 <= i < |es| :: es[i].Valid()
  }

  /** The size in four bytes, the name with its terminator, and the data. */
  function Encoded(e: Entry): seq<byte> {
    Le(|e.payload|, 4) + e.name + [0] + e.payload
  }

  /** The layout in memory: four bytes of size, lowest first, then name, zero and data. */
  lemma Layout(e: Entry)
    requires |e.payload| < 0x1_0000_0000
    ensures Encoded(e) ==
            [|e.payload| % 256, |e.payload| / 256 % 256, |e.payload| / 0x1_0000 % 256, |e.payload| / 0x100_0000]
            + e.name + [0] + e.payload
  {
    LeOfFour(|e.payload|);
  }

  function Container(es: seq<Entry>): seq<byte> {
    if es == [] then [] else Encoded(es[0]) + Container(es[1..])
  }

  /** Where the entry with index i begins. */
  function Offset(es: seq<Entry>, i: nat): nat
    requires i <= |es|
  {
    if i == 0 then 0 else |Encoded(es[0])| + Offset(es[1..], i - 1)
  }

  // ---------- Reading memory ----------

  /** A C string lies at a place in memory, with its terminator. */
  ghost predicate StringAt(mem: seq<byte>, at: nat, str: seq<byte>) {
    && at + |str| < |mem| && mem[at + |str|] == 0
    && forall k | at <= k < at + |str| :: mem[k] != 0 && mem[k] == str[k - at]
  }

  lemma StringUnique(mem: seq<byte>, at: nat, x: seq<byte>, y: seq<byte>)
    requires StringAt(mem, at, x) && StringAt(mem, at, y)
    ensures x == y
  {
    assert x == mem[at..at + |x|] && y == mem[at..at + |y|];
  }

  /** strlen() */
  method StrLen(mem: seq<byte>, at: nat, ghost str: seq<byte>) returns (n: nat)
    requires StringAt(mem, at, str)
    ensures n == |str|
  {
    n := 0;
    while mem[at + n] != 0
      invariant n <= |str|
      decreases |str| - n
    {
      n := n + 1;
    }
  }

  /** strcmp() == 0 */
  method SameString(mem: seq<byte>, at: nat, name: seq<byte>, ghost str: seq<byte>) returns (same: bool)
    requires StringAt(mem, at, str)
    ensures same <==> str == name
  {
    var n := StrLen(mem, at, str);
    assert mem[at..at + n] == str;
    same := mem[at..at + n] == name;
  }

  /** An entry lies in memory. */
  ghost predicate Lies(mem: seq<byte>, at: nat, e: Entry) {
    e.Valid() && at + |Encoded(e)| <= |mem| && mem[at..at + |Encoded(e)|] == Encoded(e)
  }

  /** Header, name and data of an entry. */
  lemma FieldsOf(mem: seq<byte>, at: nat, e: Entry)
    requires Lies(mem, at, e)
    ensures |Encoded(e)| == 5 + |e.name| + |e.payload|
    ensures FromLe(mem[at..at + 4]) == |e.payload|
    ensures StringAt(mem, at + 4, e.name)
    ensures mem[at + 5 + |e.name|..at + |Encoded(e)|] == e.payload
  {
    var all := mem[at..at + |Encoded(e)|];
    LeRoundTrip(|e.payload|, 4);
    assert mem[at..at + 4] == all[..4] == Le(|e.payload|, 4);
    assert mem[at + 4 + |e.name|] == all[4 + |e.name|];
    forall k | at + 4 <= k < at + 4 + |e.name| ensures mem[k] != 0 && mem[k] == e.name[k - (at + 4)] {
      assert mem[k] == all[k - at] && e.name[k - (at + 4)] in e.name;
    }
    assert mem[at + 5 + |e.name|..at + |Encoded(e)|] == all[5 + |e.name|..];
  }

  /** mpy_data_get_buf(): the data lies behind the header and the name, and its size delimits it. */
  method GetBuf(mem: seq<byte>, info: nat, ghost e: Entry) returns (buf: nat)
    requires Lies(mem, info, e)
    ensures buf + FromLe(mem[info..info + 4]) == info + |Encoded(e)| <= |mem|
    ensures mem[buf..buf + FromLe(mem[info..info + 4])] == e.payload
  {
    FieldsOf(mem, info, e);
    var n := StrLen(mem, info + 4, e.name);
    buf := info + 4 + n + 1;
  }

  /** The comparison of the name behind the size. */
  method HasName(mem: seq<byte>, info: nat, name: seq<byte>, ghost e: Entry) returns (same: bool)
    requires Lies(mem, info, e)
    ensures same <==> e.name == name
  {
    FieldsOf(mem, info, e);
    same := SameString(mem, info + 4, name, e.name);
  }

  /** The next entry begins where the data ends. */
  method NextInfo(mem: seq<byte>, info: nat, ghost e: Entry) returns (next: nat)
    requires Lies(mem, info, e)
    ensures next == info + |Encoded(e)|
  {
    var buf := GetBuf(mem, info, e);
    next := buf + FromLe(mem[info..info + 4]);
  }

  // ---------- Looking up ----------

  lemma ValidTail(es: seq<Entry>)
    requires AllValid(es) && es != []
    ensures AllValid(es[1..])
  {
    forall j | 0 <= j < |es[1..]| ensures es[1..][j] == es[j + 1] {}
  }

  lemma LiesInFront(e: Entry, rest: seq<byte>)
    requires e.Valid()
    ensures Lies(Encoded(e) + rest, 0, e)
  {
  }

  lemma LiesBehind(first: seq<byte>, rest: seq<byte>, at: nat, e: Entry)
    requires Lies(rest, at, e)
    ensures Lies(first + rest, |first| + at, e)
  {
    SliceBehind(first, rest, at, |Encoded(e)|);
  }

  lemma SliceBehind(first: seq<byte>, rest: seq<byte>, at: nat, n: nat)
    requires at + n <= |rest|
    ensures (first + rest)[|first| + at..|first| + at + n] == rest[at..at + n]
  {
  }

  lemma {:induction false} EntryLies(es: seq<Entry>, i: nat)
    requires AllValid(es) && i < |es|
    ensures Lies(Container(es), Offset(es, i), es[i])
    ensures Offset(es, i + 1) == Offset(es, i) + |Encoded(es[i])|
  {
    if i == 0 {
      assert Offset(es[1..], 0) == 0;
      LiesInFront(es[0], Container(es[1..]));
    } else {
      ValidTail(es);
      EntryLies(es[1..], i - 1);
      LiesBehind(Encoded(es[0]), Container(es[1..]), Offset(es[1..], i - 1), es[i]);
    }
  }

  /** At the offset of an entry there is room for it, and at the end there is none. */
  lemma {:induction false} EndReached(es: seq<Entry>, i: nat)
    requires i <= |es|
    ensures Offset(es, i) <= |Container(es)|
    ensures Offset(es, i) + 4 < |Container(es)| <==> i < |es|
  {
    if i > 0 {
      EndReached(es[1..], i - 1);
    } else if es != [] {
      assert |Container(es)| >= |Encoded(es[0])| >= 5;
    }
  }

  /** The first entry with a name. */
  function FirstWith(es: seq<Entry>, name: seq<byte>): (r: Option<nat>)
    ensures r.None? ==> forall i | 0 <= i < |es| :: es[i].name != name
    ensures r.Some? ==> r.value < |es| && es[r.value].name == name
    ensures r.Some? ==> forall i | 0 <= i < r.value :: es[i].name != name
  {
    if es == [] then None
    else if es[0].name == name then Some(0)
    else
      assert forall i | 1 <= i < |es| :: es[i] == es[1..][i - 1];
      match FirstWith(es[1..], name)
      case None => None
      case Some(i) => Some(i + 1)
  }

  /**
    mpy_data_find(): for every container it comes to an end with the first entry of that name, or
    with null exactly if there is none.
   */
  method Find(mem: seq<byte>, name: seq<byte>, ghost es: seq<Entry>) returns (r: Option<nat>)
    requires AllValid(es) && mem == Container(es)
    ensures match FirstWith(es, name)
            case None => r == None
            case Some(i) => r == Some(Offset(es, i)) && Lies(mem, Offset(es, i), es[i])
  {
    var info := 0;
    ghost var i := 0;
    EndReached(es, 0);
    assert info == Offset(es, 0);
    while info + 4 < |mem|
      invariant NoneBefore(es, i, name)
      invariant info == Offset(es, i) <= |mem|
      invariant info + 4 < |mem| <==> i < |es|
      decreases |mem| - info
    {
      EntryAt(mem, es, i);
      var same := HasName(mem, info, name, es[i]);
      if same {
        FirstWithIs(es, name, i);
        return Some(info);
      }
      info := NextInfo(mem, info, es[i]);
      i := i + 1;
    }
    NoneWith(es, name);
    r := None;
  }

  ghost predicate NoneBefore(es: seq<Entry>, i: nat, name: seq<byte>) {
    i <= |es| && forall j | 0 <= j < i :: es[j].name != name
  }

  /** What one turn of the loop needs to know. */
  lemma EntryAt(mem: seq<byte>, es: seq<Entry>, i: nat)
    requires AllValid(es) && mem == Container(es) && i < |es|
    ensures Lies(mem, Offset(es, i), es[i])
    ensures Offset(es, i) + |Encoded(es[i])| == Offset(es, i + 1) <= |mem| && |Encoded(es[i])| > 0
    ensures Offset(es, i + 1) + 4 < |mem| <==> i + 1 < |es|
  {
    EntryLies(es, i);
    EndReached(es, i + 1);
  }

  lemma NoneWith(es: seq<Entry>, name: seq<byte>)
    requires NoneBefore(es, |es|, name)
    ensures FirstWith(es, name) == None
  {
  }

  lemma FirstWithIs(es: seq<Entry>, name: seq<byte>, i: nat)
    requires i < |es| && es[i].name == name && NoneBefore(es, i, name)
    ensures FirstWith(es, name) == Some(i)
  {
  }

  /** Containers are unambiguous: the memory determines the entries. */
  lemma {:induction false} ContainerInjective(xs: seq<Entry>, ys: seq<Entry>)
    requires AllValid(xs) && AllValid(ys) && Container(xs) == Container(ys)
    ensures xs == ys
  {
    EndReached(xs, 0);
    EndReached(ys, 0);
    if xs != [] {
      EntryLies(xs, 0);
      EntryLies(ys, 0);
      FirstEntryUnique(Container(xs), xs[0], ys[0]);
      assert Container(xs)[|Encoded(xs[0])|..] == Container(xs[1..]);
      assert Container(ys)[|Encoded(ys[0])|..] == Container(ys[1..]);
      ValidTail(xs);
      ValidTail(ys);
      ContainerInjective(xs[1..], ys[1..]);
      assert xs == [xs[0]] + xs[1..] && ys == [ys[0]] + ys[1..];
    }
  }

  lemma FirstEntryUnique(mem: seq<byte>, x: Entry, y: Entry)
    requires Lies(mem, 0, x) && Lies(mem, 0, y)
    ensures x == y
  {
    FieldsOf(mem, 0, x);
    FieldsOf(mem, 0, y);
    StringUnique(mem, 4, x.name, y.name);
  }
}
