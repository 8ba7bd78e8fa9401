/** The `.ktest` file format: a test case's arguments and objects as a byte sequence. */
module KTestFile {

  type byte = b: nat | b < 256

  type bytes = seq<byte>

  type uint32 = v: nat | v < 0x1_0000_0000

  datatype KTestObject = KTestObject(name: bytes, contents: bytes)

  datatype KTest = KTest(version: uint32, args: seq<bytes>, symArgvs: uint32, symArgvLen: uint32,
                         objects: seq<KTestObject>)

  const Version: uint32 := 3
  const Magic: bytes := [75, 84, 69, 83, 84]
  const OldMagic: bytes := [66, 79, 85, 84, 10]

  // ------------------------------------------------------------------ specification

  datatype Parsed<T> = Failed | Parsed(value: T, rest: bytes)

  function LowByte(v: nat): byte {
    var r: int := v % 0x100;
    r
  }

  /** Most significant byte first. */
  function EncodeUint32(v: uint32): (r: bytes)
    ensures |r| == 4
  {
    [LowByte(v / 0x100 / 0x100 / 0x100), LowByte(v / 0x100 / 0x100), LowByte(v / 0x100), LowByte(v)]
  }

  function FourBytes(a: nat, b: nat, c: nat, d: nat): uint32
    requires a < 0x100 && b < 0x100 && c < 0x100 && d < 0x100
  {
    var r: int := ((a * 0x100 + b) * 0x100 + c) * 0x100 + d;
    r
  }

  function ParseUint32(s: bytes): Parsed<uint32> {
    if |s| < 4 then Failed else Parsed(FourBytes(s[0], s[1], s[2], s[3]), s[4..])
  }

  /** Reading one item of a given size: of nothing, or past the end, fails. */
  function ParseBlock(s: bytes, size: nat): Parsed<bytes> {
    if 0 < size <= |s| then Parsed(s[..size], s[size..]) else Failed
  }

  function EncodeString(v: bytes): bytes
    requires |v| < 0x1_0000_0000
  {
    EncodeUint32(|v|) + v
  }

  /** Strings and object contents have the same layout. */
  function ParseString(s: bytes): Parsed<bytes> {
    var n := ParseUint32(s);
    if n.Failed? then Failed else ParseBlock(n.rest, n.value)
  }

  function EncodeStrings(vs: seq<bytes>): bytes
    requires forall i :: 0 <= i < |vs| ==> |vs[i]| < 0x1_0000_0000
  {
    if vs == [] then [] else EncodeString(vs[0]) + EncodeStrings(vs[1..])
  }

  function ParseStrings(s: bytes, n: nat): (r: Parsed<seq<bytes>>)
    ensures r.Parsed? ==> |r.value| == n
  {
    if n == 0 then Parsed([], s)
    else
      var first := ParseString(s);
      if first.Failed? then Failed
      else
        var others := ParseStrings(first.rest, n - 1);
        if others.Failed? then Failed else Parsed([first.value] + others.value, others.rest)
  }

  function EncodeObject(o: KTestObject): bytes
    requires |o.name| < 0x1_0000_0000 && |o.contents| < 0x1_0000_0000
  {
    EncodeString(o.name) + EncodeString(o.contents)
  }

  function ParseObject(s: bytes): Parsed<KTestObject> {
    var name := ParseString(s);
    if name.Failed? then Failed
    else
      var contents := ParseString(name.rest);
      if contents.Failed? then Failed else Parsed(KTestObject(name.value, contents.value), contents.rest)
  }

  function EncodeObjects(os: seq<KTestObject>): bytes
    requires forall i :: 0 <= i < |os| ==> |os[i].name| < 0x1_0000_0000 && |os[i].contents| < 0x1_0000_0000
  {
    if os == [] then [] else EncodeObject(os[0]) + EncodeObjects(os[1..])
  }

  function ParseObjects(s: bytes, n: nat): (r: Parsed<seq<KTestObject>>)
    ensures r.Parsed? ==> |r.value| == n
  {
    if n == 0 then Parsed([], s)
    else
      var first := ParseObject(s);
      if first.Failed? then Failed
      else
        var others := ParseObjects(first.rest, n - 1);
        if others.Failed? then Failed else Parsed([first.value] + others.value, others.rest)
  }

  /** Sizes fit the format's counters. */
  predicate Fits(t: KTest) {
    && |t.args| < 0x1_0000_0000 && |t.objects| < 0x1_0000_0000
    && (forall i :: 0 <= i < |t.args| ==> |t.args[i]| < 0x1_0000_0000)
    && (forall i :: 0 <= i < |t.objects| ==>
      |t.objects[i].name| < 0x1_0000_0000 && |t.objects[i].contents| < 0x1_0000_0000)
  }

  /** What the writer can write: nothing in it is empty. */
  predicate Accepted(t: KTest) {
    && (forall i :: 0 <= i < |t.args| ==> t.args[i] != [])
    && (forall i :: 0 <= i < |t.objects| ==> t.objects[i].name != [] && t.objects[i].contents != [])
  }

  /** The two counters of symbolic arguments came with version 2. */
  function EncodeArgv(t: KTest, version: uint32): bytes {
    if version < 2 then [] else EncodeUint32(t.symArgvs) + EncodeUint32(t.symArgvLen)
  }

  predicate Format(magic: bytes, version: uint32) {
    (magic == Magic || magic == OldMagic) && version <= Version
  }

  /** A test in any format the reader knows. */
  function EncodeAs(magic: bytes, version: uint32, t: KTest): bytes
    requires Fits(t)
  {
    magic + EncodeUint32(version) + EncodeUint32(|t.args|) + EncodeStrings(t.args)
      + EncodeArgv(t, version) + EncodeUint32(|t.objects|) + EncodeObjects(t.objects)
  }

  /** A test in the format the writer uses. */
  function Encode(t: KTest): bytes
    requires Fits(t)
  {
    EncodeAs(Magic, Version, t)
  }

  /** A test as it is read back from a format: older ones lose the two counters. */
  function ReadAs(version: uint32, t: KTest): KTest {
    if version < 2 then t.(version := version, symArgvs := 0, symArgvLen := 0) else t.(version := version)
  }

  function ParseHeader(s: bytes): Parsed<()> {
    if |s| >= 5 && (s[..5] == Magic || s[..5] == OldMagic) then Parsed((), s[5..]) else Failed
  }

  function ParseArgv(s: bytes, version: uint32): Parsed<(uint32, uint32)> {
    if version < 2 then Parsed((0, 0), s)
    else
      var a := ParseUint32(s);
      if a.Failed? then Failed
      else
        var b := ParseUint32(a.rest);
        if b.Failed? then Failed else Parsed((a.value, b.value), b.rest)
  }

  function ParseCounted(s: bytes): Parsed<seq<bytes>> {
    var n := ParseUint32(s);
    if n.Failed? then Failed else ParseStrings(n.rest, n.value)
  }

  function ParseCountedObjects(s: bytes): Parsed<seq<KTestObject>> {
    var n := ParseUint32(s);
    if n.Failed? then Failed else ParseObjects(n.rest, n.value)
  }

  function Parse(s: bytes): Parsed<KTest> {
    var header := ParseHeader(s);
    if header.Failed? then Failed
    else
      var version := ParseUint32(header.rest);
      if version.Failed? || version.value > Version then Failed
      else
        var args := ParseCounted(version.rest);
        if args.Failed? then Failed
        else
          var argv := ParseArgv(args.rest, version.value);
          if argv.Failed? then Failed
          else
            var objects := ParseCountedObjects(argv.rest);
            if objects.Failed? then Failed
            else Parsed(KTest(version.value, args.value, argv.value.0, argv.value.1, objects.value), objects.rest)
  }

  // ---------------------------------------------------------------------- round trip

  lemma Uint32RoundTrip(v: uint32, rest: bytes)
    ensures ParseUint32(EncodeUint32(v) + rest) == Parsed(v, rest)
  {
    var s := EncodeUint32(v) + rest;
    assert s[4..] == rest;
    var q: nat := v / 0x100;
    var p: nat := q / 0x100;
    assert s[0] == p / 0x100 && s[1] == p % 0x100 && s[2] == q % 0x100 && s[3] == v % 0x100;
  }

  lemma StringRoundTrip(v: bytes, rest: bytes)
    requires 0 < |v| < 0x1_0000_0000
    ensures ParseString(EncodeString(v) + rest) == Parsed(v, rest)
  {
    Uint32RoundTrip(|v|, v + rest);
    assert EncodeString(v) + rest == EncodeUint32(|v|) + (v + rest);
    assert (v + rest)[..|v|] == v && (v + rest)[|v|..] == rest;
  }

  lemma {:induction false} StringsRoundTrip(vs: seq<bytes>, rest: bytes)
    requires forall i :: 0 <= i < |vs| ==> 0 < |vs[i]| < 0x1_0000_0000
    ensures ParseStrings(EncodeStrings(vs) + rest, |vs|) == Parsed(vs, rest)
  {
    hide EncodeString, ParseString;
    if vs != [] {
      StringRoundTrip(vs[0], EncodeStrings(vs[1..]) + rest);
      StringsRoundTrip(vs[1..], rest);
      assert EncodeStrings(vs) + rest == EncodeString(vs[0]) + (EncodeStrings(vs[1..]) + rest);
      assert [vs[0]] + vs[1..] == vs;
    } else {
      assert EncodeStrings(vs) + rest == rest;
    }
  }

  lemma ObjectRoundTrip(o: KTestObject, rest: bytes)
    requires 0 < |o.name| < 0x1_0000_0000 && 0 < |o.contents| < 0x1_0000_0000
    ensures ParseObject(EncodeObject(o) + rest) == Parsed(o, rest)
  {
    hide EncodeString, ParseString;
    StringRoundTrip(o.name, EncodeString(o.contents) + rest);
    StringRoundTrip(o.contents, rest);
    assert EncodeObject(o) + rest == EncodeString(o.name) + (EncodeString(o.contents) + rest);
  }

  lemma {:induction false} ObjectsRoundTrip(os: seq<KTestObject>, rest: bytes)
    requires forall i :: 0 <= i < |os| ==> 0 < |os[i].name| < 0x1_0000_0000 && 0 < |os[i].contents| < 0x1_0000_0000
    ensures ParseObjects(EncodeObjects(os) + rest, |os|) == Parsed(os, rest)
  {
    hide EncodeObject, ParseObject;
    if os != [] {
      ObjectRoundTrip(os[0], EncodeObjects(os[1..]) + rest);
      ObjectsRoundTrip(os[1..], rest);
      assert EncodeObjects(os) + rest == EncodeObject(os[0]) + (EncodeObjects(os[1..]) + rest);
      assert [os[0]] + os[1..] == os;
    } else {
      assert EncodeObjects(os) + rest == rest;
    }
  }

  lemma ArgvRoundTrip(t: KTest, version: uint32, rest: bytes)
    ensures ParseArgv(EncodeArgv(t, version) + rest, version)
         == Parsed((ReadAs(version, t).symArgvs, ReadAs(version, t).symArgvLen), rest)
  {
    hide EncodeUint32, ParseUint32;
    var c := EncodeUint32(t.symArgvLen) + rest;
    if version < 2 {
      assert EncodeArgv(t, version) + rest == rest;
    } else {
      assert EncodeArgv(t, version) + rest == EncodeUint32(t.symArgvs) + c;
      Uint32RoundTrip(t.symArgvs, c);
      Uint32RoundTrip(t.symArgvLen, rest);
    }
  }

  /** The reader's steps over an encoded test, up to the strings. */
  lemma ParseEncoded(magic: bytes, version: uint32, t: KTest, rest: bytes)
    returns (afterArgs: bytes, afterObjects: bytes)
    requires Fits(t) && Format(magic, version)
    ensures afterArgs == EncodeArgv(t, version) + (EncodeUint32(|t.objects|) + (EncodeObjects(t.objects) + rest))
    ensures var s := EncodeAs(magic, version, t) + rest;
      && ParseHeader(s).Parsed?
      && ParseUint32(ParseHeader(s).rest).Parsed? && ParseUint32(ParseHeader(s).rest).value == version
      && ParseCounted(ParseUint32(ParseHeader(s).rest).rest)
           == ParseStrings(EncodeStrings(t.args) + afterArgs, |t.args|)
    ensures ParseArgv(afterArgs, version)
         == Parsed((ReadAs(version, t).symArgvs, ReadAs(version, t).symArgvLen), afterObjects)
    ensures ParseCountedObjects(afterObjects) == ParseObjects(EncodeObjects(t.objects) + rest, |t.objects|)
  {
    hide EncodeUint32, ParseUint32, ParseStrings, ParseObjects, EncodeStrings, EncodeObjects, EncodeArgv, ParseArgv;
    var e := EncodeObjects(t.objects) + rest;
    afterObjects := EncodeUint32(|t.objects|) + e;
    afterArgs := EncodeArgv(t, version) + afterObjects;
    var b := EncodeStrings(t.args) + afterArgs;
    var a := EncodeUint32(|t.args|) + b;
    var v := EncodeUint32(version) + a;
    assert EncodeAs(magic, version, t) + rest == magic + v;
    assert (magic + v)[..5] == magic && (magic + v)[5..] == v;
    Uint32RoundTrip(version, a);
    Uint32RoundTrip(|t.args|, b);
    ArgvRoundTrip(t, version, afterObjects);
    Uint32RoundTrip(|t.objects|, e);
  }

  /** Reading back what was written gives the same test and leaves nothing over, in every
      format the reader knows. */
  lemma RoundTrip(magic: bytes, version: uint32, t: KTest, rest: bytes)
    requires Fits(t) && Accepted(t) && Format(magic, version)
    ensures Parse(EncodeAs(magic, version, t) + rest) == Parsed(ReadAs(version, t), rest)
  {
    hide EncodeAs, ParseHeader, ParseUint32, ParseCounted, ParseArgv, ParseCountedObjects, ParseStrings, ParseObjects,
         EncodeStrings, EncodeObjects;
    var afterArgs, afterObjects := ParseEncoded(magic, version, t, rest);
    StringsRoundTrip(t.args, afterArgs);
    ObjectsRoundTrip(t.objects, rest);
  }

  lemma EmptyString(rest: bytes)
    ensures ParseString(EncodeString([]) + rest).Failed?
  {
    hide EncodeUint32, ParseUint32;
    Uint32RoundTrip(0, rest);
    assert EncodeString([]) + rest == EncodeUint32(0) + rest;
  }

  lemma {:induction false} StringsReject(vs: seq<bytes>, rest: bytes)
    requires forall i :: 0 <= i < |vs| ==> |vs[i]| < 0x1_0000_0000
    requires exists i :: 0 <= i < |vs| && vs[i] == []
    ensures ParseStrings(EncodeStrings(vs) + rest, |vs|).Failed?
  {
    hide EncodeString, ParseString;
    var others := EncodeStrings(vs[1..]) + rest;
    assert EncodeStrings(vs) + rest == EncodeString(vs[0]) + others;
    if vs[0] == [] {
      EmptyString(others);
    } else {
      StringRoundTrip(vs[0], others);
      assert exists i :: 0 <= i < |vs[1..]| && vs[1..][i] == [] by {
        var i :| 0 <= i < |vs| && vs[i] == [];
        assert vs[1..][i - 1] == [];
      }
      StringsReject(vs[1..], rest);
    }
  }

  predicate HasEmpty(o: KTestObject) {
    o.name == [] || o.contents == []
  }

  lemma ObjectRejects(o: KTestObject, rest: bytes)
    requires HasEmpty(o) && |o.name| < 0x1_0000_0000 && |o.contents| < 0x1_0000_0000
    ensures ParseObject(EncodeObject(o) + rest).Failed?
  {
    hide EncodeString, ParseString;
    var more := EncodeString(o.contents) + rest;
    assert EncodeObject(o) + rest == EncodeString(o.name) + more;
    if o.name == [] {
      EmptyString(more);
    } else {
      StringRoundTrip(o.name, more);
      EmptyString(rest);
    }
  }

  lemma {:induction false} ObjectsReject(os: seq<KTestObject>, rest: bytes)
    requires forall i :: 0 <= i < |os| ==> |os[i].name| < 0x1_0000_0000 && |os[i].contents| < 0x1_0000_0000
    requires exists i :: 0 <= i < |os| && HasEmpty(os[i])
    ensures ParseObjects(EncodeObjects(os) + rest, |os|).Failed?
  {
    hide EncodeObject, ParseObject, HasEmpty;
    var others := EncodeObjects(os[1..]) + rest;
    assert EncodeObjects(os) + rest == EncodeObject(os[0]) + others;
    if HasEmpty(os[0]) {
      ObjectRejects(os[0], others);
    } else {
      Nonempty(os[0]);
      ObjectRoundTrip(os[0], others);
      assert exists i :: 0 <= i < |os[1..]| && HasEmpty(os[1..][i]) by {
        var i :| 0 <= i < |os| && HasEmpty(os[i]);
        assert HasEmpty(os[1..][i - 1]);
      }
      ObjectsReject(os[1..], rest);
    }
  }

  lemma Nonempty(o: KTestObject)
    requires !HasEmpty(o)
    ensures 0 < |o.name| && 0 < |o.contents|
  {
  }

  /** The reader takes an encoded test exactly when the writer would have written it. */
  lemma ReadableIff(magic: bytes, version: uint32, t: KTest, rest: bytes)
    requires Fits(t) && Format(magic, version)
    ensures Parse(EncodeAs(magic, version, t) + rest).Parsed? <==> Accepted(t)
  {
    hide EncodeAs, ParseHeader, ParseUint32, ParseCounted, ParseArgv, ParseCountedObjects, ParseStrings, ParseObjects,
         EncodeStrings, EncodeObjects;
    if Accepted(t) {
      RoundTrip(magic, version, t, rest);
    } else {
      var afterArgs, afterObjects := ParseEncoded(magic, version, t, rest);
      if exists i :: 0 <= i < |t.args| && t.args[i] == [] {
        StringsReject(t.args, afterArgs);
      } else {
        StringsRoundTrip(t.args, afterArgs);
        var i :| 0 <= i < |t.objects| && (t.objects[i].name == [] || t.objects[i].contents == []);
        assert HasEmpty(t.objects[i]);
        ObjectsReject(t.objects, rest);
      }
    }
  }

  // -------------------------------------------------------------------- truncation

  /** Whatever is parsed from a file is parsed from every longer one. */
  lemma StringExtends(s: bytes, more: bytes)
    ensures ParseUint32(s).Parsed? ==> ParseUint32(s + more) == Parsed(ParseUint32(s).value, ParseUint32(s).rest + more)
    ensures ParseString(s).Parsed? ==> ParseString(s + more) == Parsed(ParseString(s).value, ParseString(s).rest + more)
  {
    if ParseUint32(s).Parsed? {
      assert (s + more)[4..] == s[4..] + more;
      var n := ParseUint32(s);
      if ParseString(s).Parsed? {
        assert (n.rest + more)[..n.value] == n.rest[..n.value]
          && (n.rest + more)[n.value..] == n.rest[n.value..] + more;
      }
    }
  }

  lemma {:induction false} StringsExtend(s: bytes, n: nat, more: bytes)
    requires ParseStrings(s, n).Parsed?
    ensures ParseStrings(s + more, n) == Parsed(ParseStrings(s, n).value, ParseStrings(s, n).rest + more)
    decreases n
  {
    hide ParseString;
    if n > 0 {
      StringExtends(s, more);
      StringsExtend(ParseString(s).rest, n - 1, more);
    }
  }

  lemma {:induction false} ObjectsExtend(s: bytes, n: nat, more: bytes)
    requires ParseObjects(s, n).Parsed?
    ensures ParseObjects(s + more, n) == Parsed(ParseObjects(s, n).value, ParseObjects(s, n).rest + more)
    decreases n
  {
    hide ParseString;
    if n > 0 {
      StringExtends(s, more);
      StringExtends(ParseString(s).rest, more);
      ObjectsExtend(ParseObject(s).rest, n - 1, more);
    }
  }

  lemma ParseExtends(s: bytes, more: bytes)
    requires Parse(s).Parsed?
    ensures Parse(s + more) == Parsed(Parse(s).value, Parse(s).rest + more)
  {
    hide ParseUint32, ParseStrings, ParseObjects, ParseString;
    assert (s + more)[..5] == s[..5] && (s + more)[5..] == s[5..] + more;
    var header := ParseHeader(s);
    StringExtends(header.rest, more);
    var version := ParseUint32(header.rest);
    StringExtends(version.rest, more);
    var n := ParseUint32(version.rest);
    StringsExtend(n.rest, n.value, more);
    var args := ParseCounted(version.rest);
    ArgvExtends(args.rest, version.value, more);
    var argv := ParseArgv(args.rest, version.value);
    StringExtends(argv.rest, more);
    var k := ParseUint32(argv.rest);
    ObjectsExtend(k.rest, k.value, more);
  }

  lemma ArgvExtends(s: bytes, version: uint32, more: bytes)
    requires ParseArgv(s, version).Parsed?
    ensures ParseArgv(s + more, version) == Parsed(ParseArgv(s, version).value, ParseArgv(s, version).rest + more)
  {
    hide ParseUint32;
    if version >= 2 {
      StringExtends(s, more);
      StringExtends(ParseUint32(s).rest, more);
    }
  }

  /** A file that has been cut short is rejected. */
  lemma TruncatedIsRejected(magic: bytes, version: uint32, t: KTest, n: nat)
    requires Fits(t) && Accepted(t) && Format(magic, version) && n < |EncodeAs(magic, version, t)|
    ensures Parse(EncodeAs(magic, version, t)[..n]).Failed?
  {
    hide Parse, EncodeAs;
    var whole := EncodeAs(magic, version, t);
    var s, more := whole[..n], whole[n..];
    assert s + more == whole && whole + [] == whole;
    RoundTrip(magic, version, t, []);
    if Parse(s).Parsed? {
      ParseExtends(s, more);
    }
  }

  // ----------------------------------------------------------------------- layout

  /** Numbers are four bytes, the most significant first. */
  lemma Uint32Layout(v: uint32)
    ensures EncodeUint32(v)
         == [v / 0x100_0000, v / 0x1_0000 % 0x100, v / 0x100 % 0x100, v % 0x100]
  {
    assert v / 0x100 / 0x100 == v / 0x1_0000 && v / 0x100 / 0x100 / 0x100 == v / 0x100_0000;
  }

  lemma ParsedUint32(s: bytes)
    requires |s| >= 4
    ensures ParseUint32(s)
         == Parsed(s[0] as nat * 0x100_0000 + s[1] as nat * 0x1_0000 + s[2] as nat * 0x100 + s[3] as nat, s[4..])
  {
  }

  /** The four bytes of a number stand at a position of the file. */
  predicate NumberAt(s: bytes, at: nat, v: nat) {
    && at + 4 <= |s| && v < 0x1_0000_0000
    && s[at] == v / 0x100_0000 && s[at + 1] == v / 0x1_0000 % 0x100
    && s[at + 2] == v / 0x100 % 0x100 && s[at + 3] == v % 0x100
  }

  /** A length and that many bytes stand at a position of the file. */
  predicate StringAt(s: bytes, at: nat, v: bytes) {
    NumberAt(s, at, |v|) && at + 4 + |v| <= |s| && s[at + 4..at + 4 + |v|] == v
  }

  /** Where argument k starts: after the header, the version and the count. */
  function ArgStart(t: KTest, k: nat): nat
    requires k <= |t.args|
  {
    if k == 0 then 13 else ArgStart(t, k - 1) + 4 + |t.args[k - 1]|
  }

  /** Where object k starts: after the arguments, the two counters if there are any, and the
      count of objects. */
  function ObjectStart(t: KTest, version: uint32, k: nat): nat
    requires k <= |t.objects|
  {
    if k == 0 then ArgStart(t, |t.args|) + (if version >= 2 then 12 else 4)
    else ObjectStart(t, version, k - 1) + 8 + |t.objects[k - 1].name| + |t.objects[k - 1].contents|
  }

  lemma NumberIn(front: bytes, v: uint32, back: bytes)
    ensures NumberAt(front + EncodeUint32(v) + back, |front|, v)
  {
    hide EncodeUint32;
    Uint32Layout(v);
  }

  lemma StringIn(front: bytes, v: bytes, back: bytes)
    requires |v| < 0x1_0000_0000
    ensures StringAt(front + EncodeString(v) + back, |front|, v)
  {
    hide EncodeUint32, NumberAt;
    var s := front + EncodeString(v) + back;
    assert s == front + EncodeUint32(|v|) + (v + back);
    NumberIn(front, |v|, v + back);
    assert s == front + EncodeUint32(|v|) + v + back;
    assert s[|front| + 4..|front| + 4 + |v|] == v;
  }

  lemma {:induction false} ArgsIn(front: bytes, t: KTest, k: nat, back: bytes)
    requires Fits(t) && k <= |t.args| && |front| == ArgStart(t, k)
    ensures var s := front + EncodeStrings(t.args[k..]) + back;
      && (forall i :: k <= i < |t.args| ==> StringAt(s, ArgStart(t, i), t.args[i]))
      && |s| == ArgStart(t, |t.args|) + |back|
    decreases |t.args| - k
  {
    hide EncodeString, StringAt;
    var s := front + EncodeStrings(t.args[k..]) + back;
    if k < |t.args| {
      assert t.args[k..][0] == t.args[k] && t.args[k..][1..] == t.args[k + 1..];
      var more := EncodeStrings(t.args[k + 1..]);
      EncodedLength(t.args[k]);
      assert s == front + EncodeString(t.args[k]) + (more + back);
      StringIn(front, t.args[k], more + back);
      assert s == (front + EncodeString(t.args[k])) + more + back;
      ArgsIn(front + EncodeString(t.args[k]), t, k + 1, back);
    }
  }

  lemma EncodedLength(v: bytes)
    requires |v| < 0x1_0000_0000
    ensures |EncodeString(v)| == 4 + |v|
  {
  }

  /** The name comes before the contents. */
  predicate ObjectAt(s: bytes, at: nat, o: KTestObject) {
    StringAt(s, at, o.name) && StringAt(s, at + 4 + |o.name|, o.contents)
  }

  lemma ObjectIn(front: bytes, o: KTestObject, back: bytes)
    requires |o.name| < 0x1_0000_0000 && |o.contents| < 0x1_0000_0000
    ensures ObjectAt(front + EncodeObject(o) + back, |front|, o)
    ensures |EncodeObject(o)| == 8 + |o.name| + |o.contents|
  {
    hide EncodeString, StringAt;
    var name, contents := EncodeString(o.name), EncodeString(o.contents);
    EncodedLength(o.name);
    EncodedLength(o.contents);
    var s := front + EncodeObject(o) + back;
    assert s == front + name + (contents + back);
    StringIn(front, o.name, contents + back);
    assert s == (front + name) + contents + back;
    StringIn(front + name, o.contents, back);
  }

  lemma {:induction false} ObjectsIn(front: bytes, t: KTest, version: uint32, k: nat, back: bytes)
    requires Fits(t) && k <= |t.objects| && |front| == ObjectStart(t, version, k)
    ensures var s := front + EncodeObjects(t.objects[k..]) + back;
      && (forall i :: k <= i < |t.objects| ==> ObjectAt(s, ObjectStart(t, version, i), t.objects[i]))
      && |s| == ObjectStart(t, version, |t.objects|) + |back|
    decreases |t.objects| - k
  {
    hide EncodeObject, ObjectAt;
    var s := front + EncodeObjects(t.objects[k..]) + back;
    if k < |t.objects| {
      assert t.objects[k..][0] == t.objects[k] && t.objects[k..][1..] == t.objects[k + 1..];
      var o, more := t.objects[k], EncodeObjects(t.objects[k + 1..]);
      assert s == front + EncodeObject(o) + (more + back);
      ObjectIn(front, o, more + back);
      assert s == (front + EncodeObject(o)) + more + back;
      ObjectsIn(front + EncodeObject(o), t, version, k + 1, back);
    }
  }

  /** Every byte of an encoded test: header, version, arguments, counters, objects. */
  lemma FileLayout(magic: bytes, version: uint32, t: KTest)
    requires Fits(t) && Format(magic, version)
    ensures var s := EncodeAs(magic, version, t); var argvs := ArgStart(t, |t.args|);
      && |s| == ObjectStart(t, version, |t.objects|)
      && s[..5] == magic && NumberAt(s, 5, version) && NumberAt(s, 9, |t.args|)
      && (forall i :: 0 <= i < |t.args| ==> StringAt(s, ArgStart(t, i), t.args[i]))
      && (version >= 2 ==> NumberAt(s, argvs, t.symArgvs) && NumberAt(s, argvs + 4, t.symArgvLen))
      && NumberAt(s, ObjectStart(t, version, 0) - 4, |t.objects|)
      && (forall i :: 0 <= i < |t.objects| ==> ObjectAt(s, ObjectStart(t, version, i), t.objects[i]))
  {
    hide EncodeUint32, EncodeStrings, EncodeObjects, NumberAt, StringAt, ObjectAt, EncodeArgv;
    var s := EncodeAs(magic, version, t);
    var v, n, c := EncodeUint32(version), EncodeUint32(|t.args|), EncodeUint32(|t.objects|);
    var args, argv, os := EncodeStrings(t.args), EncodeArgv(t, version), EncodeObjects(t.objects);
    assert s == magic + v + (n + args + argv + c + os);
    NumberIn(magic, version, n + args + argv + c + os);
    assert s == (magic + v) + n + (args + argv + c + os);
    NumberIn(magic + v, |t.args|, args + argv + c + os);
    assert s == (magic + v + n) + args + (argv + c + os);
    assert t.args[0..] == t.args;
    ArgsIn(magic + v + n, t, 0, argv + c + os);
    var front := magic + v + n + args;
    assert |front| == ArgStart(t, |t.args|) by {
      ArgsIn(magic + v + n, t, 0, []);
      assert magic + v + n + args + [] == front;
    }
    assert s == front + argv + (c + os);
    ArgvIn(front, t, version, c + os);
    assert s == (front + argv) + c + os;
    NumberIn(front + argv, |t.objects|, os);
    assert t.objects[0..] == t.objects && s == (front + argv + c) + os + [];
    ObjectsIn(front + argv + c, t, version, 0, []);
  }

  lemma ArgvIn(front: bytes, t: KTest, version: uint32, back: bytes)
    ensures |EncodeArgv(t, version)| == if version >= 2 then 8 else 0
    ensures var s := front + EncodeArgv(t, version) + back;
      version >= 2 ==> NumberAt(s, |front|, t.symArgvs) && NumberAt(s, |front| + 4, t.symArgvLen)
  {
    hide EncodeUint32, NumberAt;
    if version >= 2 {
      var s, a, b := front + EncodeArgv(t, version) + back, EncodeUint32(t.symArgvs), EncodeUint32(t.symArgvLen);
      assert s == front + a + (b + back);
      NumberIn(front, t.symArgvs, b + back);
      assert s == (front + a) + b + back;
      NumberIn(front + a, t.symArgvLen, back);
    }
  }

  /** What the writer writes starts with "KTEST" and version 3; the reader also knows the
      old header, "BOUT" and a newline. */
  lemma HeaderBytes(t: KTest)
    requires Fits(t)
    ensures Encode(t)[..5] == [75, 84, 69, 83, 84] && NumberAt(Encode(t), 5, 3)
    ensures forall magic, version ::
      Format(magic, version) <==> (magic == [75, 84, 69, 83, 84] || magic == [66, 79, 85, 84, 10]) && version <= 3
  {
    hide EncodeAs, NumberAt, StringAt, ObjectAt, ArgStart, ObjectStart;
    FileLayout(Magic, Version, t);
  }

  // ------------------------------------------------------------------- uniqueness

  lemma Uint32Back(s: bytes)
    requires ParseUint32(s).Parsed?
    ensures s == EncodeUint32(ParseUint32(s).value) + ParseUint32(s).rest
  {
    var a: nat, b: nat, c: nat, d: nat := s[0], s[1], s[2], s[3];
    var v: nat := ParseUint32(s).value;
    assert v / 0x100 == (a * 0x100 + b) * 0x100 + c && v % 0x100 == d;
    assert v / 0x100 / 0x100 == a * 0x100 + b;
    assert s == s[..4] + s[4..];
  }

  lemma StringBack(s: bytes)
    requires ParseString(s).Parsed?
    ensures 0 < |ParseString(s).value| < 0x1_0000_0000 && s == EncodeString(ParseString(s).value) + ParseString(s).rest
  {
    hide EncodeUint32, ParseUint32;
    Uint32Back(s);
    var n := ParseUint32(s);
    assert n.rest == n.rest[..n.value] + n.rest[n.value..];
  }

  lemma {:induction false} StringsBack(s: bytes, n: nat)
    requires ParseStrings(s, n).Parsed?
    ensures forall i :: 0 <= i < n ==> 0 < |ParseStrings(s, n).value[i]| < 0x1_0000_0000
    ensures s == EncodeStrings(ParseStrings(s, n).value) + ParseStrings(s, n).rest
    decreases n
  {
    hide EncodeString, ParseString;
    if n > 0 {
      StringBack(s);
      StringsBack(ParseString(s).rest, n - 1);
      var r := ParseStrings(s, n);
      assert r.value[1..] == ParseStrings(ParseString(s).rest, n - 1).value;
    }
  }

  lemma {:induction false} ObjectsBack(s: bytes, n: nat)
    requires ParseObjects(s, n).Parsed?
    ensures forall i :: 0 <= i < n ==>
      0 < |ParseObjects(s, n).value[i].name| < 0x1_0000_0000
        && 0 < |ParseObjects(s, n).value[i].contents| < 0x1_0000_0000
    ensures s == EncodeObjects(ParseObjects(s, n).value) + ParseObjects(s, n).rest
    decreases n
  {
    hide EncodeString, ParseString;
    if n > 0 {
      StringBack(s);
      StringBack(ParseString(s).rest);
      ObjectsBack(ParseObject(s).rest, n - 1);
      var r := ParseObjects(s, n);
      assert r.value[1..] == ParseObjects(ParseObject(s).rest, n - 1).value;
    }
  }

  lemma ArgvBack(s: bytes, version: uint32, t: KTest)
    requires ParseArgv(s, version).Parsed? && ParseArgv(s, version).value == (t.symArgvs, t.symArgvLen)
    ensures s == EncodeArgv(t, version) + ParseArgv(s, version).rest
  {
    hide EncodeUint32, ParseUint32;
    if version >= 2 {
      Uint32Back(s);
      Uint32Back(ParseUint32(s).rest);
    }
  }

  /** A file that is read, of whatever format, holds exactly the encoding of the test read
      from it in that format. */
  lemma ParseBack(s: bytes)
    requires Parse(s).Parsed?
    ensures var t := Parse(s).value;
      && |s| >= 5 && Format(s[..5], t.version) && Fits(t) && Accepted(t) && t == ReadAs(t.version, t)
      && s == EncodeAs(s[..5], t.version, t) + Parse(s).rest
  {
    hide EncodeUint32, ParseUint32, ParseStrings, ParseObjects, EncodeStrings, EncodeObjects, EncodeArgv, ParseArgv;
    var t := Parse(s).value;
    assert s == s[..5] + s[5..];
    var version := ParseUint32(s[5..]);
    Uint32Back(s[5..]);
    var n := ParseUint32(version.rest);
    Uint32Back(version.rest);
    StringsBack(n.rest, n.value);
    var args := ParseStrings(n.rest, n.value);
    ArgvBack(args.rest, t.version, t);
    ArgvOf(args.rest, t.version);
    var argv := ParseArgv(args.rest, t.version);
    var k := ParseUint32(argv.rest);
    Uint32Back(argv.rest);
    ObjectsBack(k.rest, k.value);
  }

  lemma ArgvOf(s: bytes, version: uint32)
    requires ParseArgv(s, version).Parsed?
    ensures version < 2 ==> ParseArgv(s, version).value == (0, 0)
  {
  }

  // ---------------------------------------------------------------------- the files

  /** A file being written or read from its start. */
  class File {
    var data: bytes
    var pos: nat

    constructor (data: bytes)
      ensures this.data == data && pos == 0
    {
      this.data, pos := data, 0;
    }

    ghost predicate Valid()
      reads this
    {
      pos <= |data|
    }

    ghost function Rest(): bytes
      requires Valid()
      reads this
    {
      data[pos..]
    }

    /** Writing one item; an item of size zero is never written. */
    method Fwrite(item: bytes) returns (ok: bool)
      modifies this`data
      ensures ok == (item != [])
      ensures data == if ok then old(data) + item else old(data)
    {
      ok := item != [];
      if ok {
        data := data + item;
      }
    }

    method Fread(size: nat) returns (ok: bool, item: bytes)
      requires Valid()
      modifies this`pos
      ensures Valid()
      ensures ok == ParseBlock(old(Rest()), size).Parsed?
      ensures ok ==> Parsed(item, Rest()) == ParseBlock(old(Rest()), size)
    {
      item := [];
      ok := 0 < size <= |data| - pos;
      if ok {
        item := data[pos..pos + size];
        pos := pos + size;
        assert item == old(Rest())[..size] && Rest() == old(Rest())[size..];
      }
    }

    method WriteUint32(v: uint32) returns (ok: bool)
      modifies this`data
      ensures ok && data == old(data) + EncodeUint32(v)
    {
      ok := Fwrite(EncodeUint32(v));
    }

    method ReadUint32() returns (ok: bool, v: uint32)
      requires Valid()
      modifies this`pos
      ensures Valid() && ok == ParseUint32(old(Rest())).Parsed?
      ensures ok ==> Parsed(v, Rest()) == ParseUint32(old(Rest()))
    {
      var item;
      v := 0;
      ok, item := Fread(4);
      if ok {
        v := FourBytes(item[0], item[1], item[2], item[3]);
      }
    }

    method WriteString(v: bytes) returns (ok: bool)
      requires |v| < 0x1_0000_0000
      modifies this`data
      ensures ok == (v != [])
      ensures ok ==> data == old(data) + EncodeString(v)
    {
      ok := WriteUint32(|v|);
      ok := Fwrite(v);
    }

    method ReadString() returns (ok: bool, v: bytes)
      requires Valid()
      modifies this`pos
      ensures Valid() && ok == ParseString(old(Rest())).Parsed?
      ensures ok ==> Parsed(v, Rest()) == ParseString(old(Rest()))
    {
      var len;
      v := [];
      ok, len := ReadUint32();
      if ok {
        ok, v := Fread(len);
      }
    }

    method ReadStrings(n: nat) returns (ok: bool, vs: seq<bytes>)
      requires Valid()
      modifies this`pos
      ensures Valid() && ok == ParseStrings(old(Rest()), n).Parsed?
      ensures ok ==> Parsed(vs, Rest()) == ParseStrings(old(Rest()), n)
    {
      hide ParseString, ParseStrings, File.Rest;
      vs := [];
      PrependNone(ParseStrings(Rest(), n));
      for i := 0 to n
        invariant Valid() && ParseStrings(old(Rest()), n) == Prepend(vs, ParseStrings(Rest(), n - i))
      {
        var v;
        StringsStep(vs, Rest(), n - i);
        ok, v := ReadString();
        if !ok {
          return false, [];
        }
        vs := vs + [v];
      }
      NoStrings(vs, Rest());
      ok := true;
    }

    method ReadObjects(n: nat) returns (ok: bool, os: seq<KTestObject>)
      requires Valid()
      modifies this`pos
      ensures Valid() && ok == ParseObjects(old(Rest()), n).Parsed?
      ensures ok ==> Parsed(os, Rest()) == ParseObjects(old(Rest()), n)
    {
      hide ParseString, ParseObjects, File.Rest;
      os := [];
      PrependNone(ParseObjects(Rest(), n));
      for i := 0 to n
        invariant Valid() && ParseObjects(old(Rest()), n) == Prepend(os, ParseObjects(Rest(), n - i))
      {
        var name, contents;
        ObjectsStep(os, Rest(), n - i);
        ok, name := ReadString();
        if !ok {
          return false, [];
        }
        ok, contents := ReadString();
        if !ok {
          return false, [];
        }
        os := os + [KTestObject(name, contents)];
      }
      NoObjects(os, Rest());
      ok := true;
    }

    method WriteStrings(vs: seq<bytes>) returns (ok: bool)
      requires forall i :: 0 <= i < |vs| ==> |vs[i]| < 0x1_0000_0000
      modifies this`data
      ensures ok == forall i :: 0 <= i < |vs| ==> vs[i] != []
      ensures ok ==> data == old(data) + EncodeStrings(vs)
    {
      assert EncodeStrings([]) == [] && vs[..0] == [];
      for i := 0 to |vs|
        invariant (forall k :: 0 <= k < i ==> vs[k] != []) && data == old(data) + EncodeStrings(vs[..i])
      {
        ok := WriteString(vs[i]);
        if !ok {
          return;
        }
        EncodeStringsAppend(vs[..i], vs[i]);
        assert vs[..i + 1] == vs[..i] + [vs[i]];
      }
      assert vs[..|vs|] == vs;
      ok := true;
    }

    method WriteObjects(os: seq<KTestObject>) returns (ok: bool)
      requires forall i :: 0 <= i < |os| ==> |os[i].name| < 0x1_0000_0000 && |os[i].contents| < 0x1_0000_0000
      modifies this`data
      ensures ok == forall i :: 0 <= i < |os| ==> os[i].name != [] && os[i].contents != []
      ensures ok ==> data == old(data) + EncodeObjects(os)
    {
      hide EncodeString, EncodeObjects;
      EncodeNoObjects();
      assert os[..0] == [];
      for i := 0 to |os|
        invariant forall k :: 0 <= k < i ==> os[k].name != [] && os[k].contents != []
        invariant data == old(data) + EncodeObjects(os[..i])
      {
        ok := WriteString(os[i].name);
        if !ok {
          return;
        }
        ok := WriteString(os[i].contents);
        if !ok {
          return;
        }
        EncodeObjectsAppend(os[..i], os[i]);
        assert os[..i + 1] == os[..i] + [os[i]];
      }
      assert os[..|os|] == os;
      ok := true;
    }
  }

  function Prepend<T>(front: seq<T>, p: Parsed<seq<T>>): Parsed<seq<T>> {
    if p.Failed? then Failed else Parsed(front + p.value, p.rest)
  }

  lemma PrependNone<T>(p: Parsed<seq<T>>)
    ensures Prepend([], p) == p
  {
    assert p.Parsed? ==> [] + p.value == p.value;
  }

  lemma StringsStep(vs: seq<bytes>, s: bytes, k: nat)
    requires k > 0
    ensures ParseString(s).Failed? ==> Prepend(vs, ParseStrings(s, k)).Failed?
    ensures ParseString(s).Parsed? ==>
      Prepend(vs, ParseStrings(s, k)) == Prepend(vs + [ParseString(s).value], ParseStrings(ParseString(s).rest, k - 1))
  {
    hide ParseString;
    var first := ParseString(s);
    if first.Parsed? && ParseStrings(first.rest, k - 1).Parsed? {
      var w := ParseStrings(first.rest, k - 1).value;
      assert vs + ([first.value] + w) == vs + [first.value] + w;
    }
  }

  lemma NoStrings(vs: seq<bytes>, s: bytes)
    ensures Prepend(vs, ParseStrings(s, 0)) == Parsed(vs, s)
  {
    assert vs + [] == vs;
  }

  lemma ObjectsStep(os: seq<KTestObject>, s: bytes, k: nat)
    requires k > 0
    ensures ParseObject(s).Failed? ==> Prepend(os, ParseObjects(s, k)).Failed?
    ensures ParseObject(s).Parsed? ==>
      Prepend(os, ParseObjects(s, k)) == Prepend(os + [ParseObject(s).value], ParseObjects(ParseObject(s).rest, k - 1))
  {
    hide ParseObject;
    var first := ParseObject(s);
    if first.Parsed? && ParseObjects(first.rest, k - 1).Parsed? {
      var w := ParseObjects(first.rest, k - 1).value;
      assert os + ([first.value] + w) == os + [first.value] + w;
    }
  }

  lemma NoObjects(os: seq<KTestObject>, s: bytes)
    ensures Prepend(os, ParseObjects(s, 0)) == Parsed(os, s)
  {
    assert os + [] == os;
  }

  lemma EncodeNoObjects()
    ensures EncodeObjects([]) == []
  {
  }

  lemma {:induction false} EncodeStringsAppend(vs: seq<bytes>, v: bytes)
    requires |v| < 0x1_0000_0000 && forall i :: 0 <= i < |vs| ==> |vs[i]| < 0x1_0000_0000
    ensures EncodeStrings(vs + [v]) == EncodeStrings(vs) + EncodeString(v)
  {
    hide EncodeString;
    if vs == [] {
      assert vs + [v] == [v] && [v][1..] == [];
    } else {
      EncodeStringsAppend(vs[1..], v);
      assert (vs + [v])[1..] == vs[1..] + [v];
    }
  }

  lemma {:induction false} EncodeObjectsAppend(os: seq<KTestObject>, o: KTestObject)
    requires |o.name| < 0x1_0000_0000 && |o.contents| < 0x1_0000_0000
    requires forall i :: 0 <= i < |os| ==> |os[i].name| < 0x1_0000_0000 && |os[i].contents| < 0x1_0000_0000
    ensures EncodeObjects(os + [o]) == EncodeObjects(os) + EncodeString(o.name) + EncodeString(o.contents)
  {
    hide EncodeString;
    if os == [] {
      assert os + [o] == [o] && [o][1..] == [];
    } else {
      EncodeObjectsAppend(os[1..], o);
      assert (os + [o])[1..] == os[1..] + [o];
    }
  }

  /** `kTest_toFile` */
  method ToFile(t: KTest) returns (ok: bool, contents: bytes)
    requires Fits(t)
    ensures ok == Accepted(t)
    ensures ok ==> contents == Encode(t)
  {
    hide EncodeUint32, EncodeStrings, EncodeObjects;
    var f := new File([]);
    ok := f.Fwrite(Magic);
    assert f.data == Magic;
    ok := f.WriteUint32(Version);
    ok := f.WriteUint32(|t.args|);
    ok := f.WriteStrings(t.args);
    if ok {
      ok := f.WriteUint32(t.symArgvs);
      ok := f.WriteUint32(t.symArgvLen);
      ok := f.WriteUint32(|t.objects|);
      ok := f.WriteObjects(t.objects);
      ghost var front := Magic + EncodeUint32(Version) + EncodeUint32(|t.args|) + EncodeStrings(t.args);
      assert front + EncodeUint32(t.symArgvs) + EncodeUint32(t.symArgvLen) == front + EncodeArgv(t, Version);
    }
    contents := f.data;
  }

  lemma WholeFile(f: File)
    requires f.pos == 0
    ensures f.Valid() && f.Rest() == f.data
  {
  }

  datatype Loaded = Rejected | Loaded(test: KTest)

  /** `kTest_fromFile`. Bytes after the last object are not looked at. */
  method FromFile(contents: bytes) returns (r: Loaded)
    ensures r.Rejected? <==> Parse(contents).Failed?
    ensures r.Loaded? ==> r.test == Parse(contents).value
  {
    hide ParseUint32, ParseStrings, ParseObjects, File.Rest;
    var f := new File(contents);
    WholeFile(f);
    var ok, header := f.Fread(5);
    if !ok || (header != Magic && header != OldMagic) {
      return Rejected;
    }
    var version, numArgs, args;
    ok, version := f.ReadUint32();
    if !ok || version > Version {
      return Rejected;
    }
    ok, numArgs := f.ReadUint32();
    if !ok {
      return Rejected;
    }
    ok, args := f.ReadStrings(numArgs);
    if !ok {
      return Rejected;
    }
    var symArgvs: uint32, symArgvLen: uint32 := 0, 0;
    if version >= 2 {
      ok, symArgvs := f.ReadUint32();
      if !ok {
        return Rejected;
      }
      ok, symArgvLen := f.ReadUint32();
      if !ok {
        return Rejected;
      }
    }
    var numObjects, objects;
    ok, numObjects := f.ReadUint32();
    if !ok {
      return Rejected;
    }
    ok, objects := f.ReadObjects(numObjects);
    if !ok {
      return Rejected;
    }
    r := Loaded(KTest(version, args, symArgvs, symArgvLen, objects));
  }
}
