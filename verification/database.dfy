/**
 * The server's table of host names and IPv4 addresses: names are stored
 * lower-cased, so look-ups ignore the case of ASCII letters.
 */
module NameDatabase {
  import opened Wire
  import opened RecordCodec

  /** An ASCII capital letter, `A` to `Z`. */
  predicate IsUpper(b: byte)
  {
    0x41 <= b <= 0x5A
  }

  /** Two bytes that are equal once ASCII letters are lower-cased. */
  predicate SameLetter(a: byte, b: byte)
  {
    a == b || (IsUpper(a) && b == a + 0x20) || (IsUpper(b) && a == b + 0x20)
  }

  /** Two names that are equal once ASCII letters are lower-cased. */
  predicate SameIgnoringCase(a: seq<byte>, b: seq<byte>)
  {
    |a| == |b| && forall i :: 0 <= i < |a| ==> SameLetter(a[i], b[i])
  }

  /** No capital letter in `s`. */
  predicate LowerCase(s: seq<byte>)
  {
    forall i :: 0 <= i < |s| ==> !IsUpper(s[i])
  }

  /** One byte lower-cased. */
  function LowerByte(b: byte): (r: byte)
    ensures !IsUpper(r) && SameLetter(b, r)
  {
    if IsUpper(b) then b + 0x20 else b
  }

  /** `to_lowercase` on a name: every capital letter becomes its small letter, every other byte stays. */
  function Lower(s: seq<byte>): (r: seq<byte>)
    ensures LowerCase(r) && SameIgnoringCase(s, r)
  {
    seq(|s|, i requires 0 <= i < |s| => LowerByte(s[i]))
  }

  /** Lower-casing leaves a lower-case name as it is. */
  lemma LowerKeepsLowerCase(s: seq<byte>)
    requires LowerCase(s)
    ensures Lower(s) == s
  {
    assert forall i :: 0 <= i < |s| ==> Lower(s)[i] == s[i];
  }

  /** Lower-casing twice is lower-casing once. */
  lemma LowerIdempotent(s: seq<byte>)
    ensures Lower(Lower(s)) == Lower(s)
  {
    LowerKeepsLowerCase(Lower(s));
  }

  /** Two names lower-case to the same name exactly when they differ only in the case of letters. */
  lemma LowerEqualIffSameIgnoringCase(a: seq<byte>, b: seq<byte>)
    ensures Lower(a) == Lower(b) <==> SameIgnoringCase(a, b)
  {
    if SameIgnoringCase(a, b) {
      assert forall i :: 0 <= i < |a| ==> Lower(a)[i] == Lower(b)[i];
    }
    if Lower(a) == Lower(b) {
      assert forall i :: 0 <= i < |a| ==> LowerByte(a[i]) == LowerByte(b[i]);
    }
  }

  /** `lookup`: the address stored under the lower-cased name. */
  function Find(records: map<seq<byte>, Ipv4>, name: seq<byte>): (r: Option<Ipv4>)
    ensures r.Some? <==> Lower(name) in records
    ensures r.Some? ==> r.value == records[Lower(name)]
  {
    if Lower(name) in records then Some(records[Lower(name)]) else None
  }

  /**
   * A look-up finds an address stored under a name equal to `name` but for
   * the case of letters, and, in a table whose names are all lower-case,
   * finds one whenever such a name is stored.
   */
  lemma FindUpToCase(records: map<seq<byte>, Ipv4>, name: seq<byte>)
    ensures Find(records, name).Some? ==>
      exists k :: k in records && SameIgnoringCase(name, k) && records[k] == Find(records, name).value
    ensures (forall k :: k in records ==> LowerCase(k)) ==>
      (Find(records, name).Some? <==> exists k :: k in records && SameIgnoringCase(name, k))
  {
    if Find(records, name).Some? {
      assert SameIgnoringCase(name, Lower(name));
    }
    if forall k :: k in records ==> LowerCase(k) {
      forall k | k in records && SameIgnoringCase(name, k)
        ensures Lower(name) in records
      {
        LowerEqualIffSameIgnoringCase(name, k);
        LowerKeepsLowerCase(k);
      }
    }
  }

  /** A look-up does not see the case of letters. */
  lemma FindIgnoresCase(records: map<seq<byte>, Ipv4>, a: seq<byte>, b: seq<byte>)
    requires SameIgnoringCase(a, b)
    ensures Find(records, a) == Find(records, b)
  {
    LowerEqualIffSameIgnoringCase(a, b);
  }

  /** After storing an address under a name, that name, in any case, finds it. */
  lemma FindStored(records: map<seq<byte>, Ipv4>, name: seq<byte>, other: seq<byte>, ip: Ipv4)
    requires SameIgnoringCase(name, other)
    ensures Find(records[Lower(name) := ip], other) == Some(ip)
  {
    LowerEqualIffSameIgnoringCase(name, other);
  }

  /** Storing an address under a name changes no look-up of a different name. */
  lemma FindOther(records: map<seq<byte>, Ipv4>, name: seq<byte>, other: seq<byte>, ip: Ipv4)
    requires !SameIgnoringCase(name, other)
    ensures Find(records[Lower(name) := ip], other) == Find(records, other)
  {
    LowerEqualIffSameIgnoringCase(name, other);
  }

  /** Storing under a name a second time replaces the first address. */
  lemma StoreOverwrites(records: map<seq<byte>, Ipv4>, a: seq<byte>, b: seq<byte>, ip1: Ipv4, ip2: Ipv4)
    requires SameIgnoringCase(a, b)
    ensures records[Lower(a) := ip1][Lower(b) := ip2] == records[Lower(b) := ip2]
  {
    LowerEqualIffSameIgnoringCase(a, b);
  }

  /** The bytes of an ASCII text. */
  function Ascii(s: string): (r: seq<byte>)
    requires forall i :: 0 <= i < |s| ==> s[i] as int < 0x80
    ensures |r| == |s| && forall i :: 0 <= i < |s| ==> r[i] == s[i] as int
  {
    seq(|s|, i requires 0 <= i < |s| => s[i] as int)
  }

  const Localhost: seq<byte> := Ascii("localhost")
  const TestLocal: seq<byte> := Ascii("test.local")
  const ServerLocal: seq<byte> := Ascii("server.local")
  const ExampleCom: seq<byte> := Ascii("example.com")
  const GoogleCom: seq<byte> := Ascii("google.com")

  /**
   * `SimpleDnsDatabase`: the name-to-address table. Every key is stored
   * lower-cased.
   */
  class NameTable {
    var records: map<seq<byte>, Ipv4>

    /** Every stored name is lower-case: the table's invariant, kept by `AddRecord` and relied on by `Lookup`. */
    predicate Valid()
      reads this
    {
      forall k :: k in records ==> LowerCase(k)
    }

    /** `SimpleDnsDatabase::new`: an empty table, then the five built-in entries. */
    constructor ()
      ensures Valid()
      ensures records == Seeded()
    {
      records := map[];
      new;
      AddRecord(Localhost, [127, 0, 0, 1]);
      AddRecord(TestLocal, [192, 168, 1, 100]);
      AddRecord(ServerLocal, [192, 168, 1, 1]);
      AddRecord(ExampleCom, [93, 184, 216, 34]);
      AddRecord(GoogleCom, [8, 8, 8, 8]);
    }

    /** `add_record`: store `ip` under the lower-cased name, replacing any address stored there. */
    method AddRecord(name: seq<byte>, ip: Ipv4)
      modifies this
      ensures records == old(records)[Lower(name) := ip]
      ensures old(Valid()) ==> Valid()
      ensures Find(records, name) == Some(ip)
      ensures forall n :: !SameIgnoringCase(name, n) ==> Find(records, n) == Find(old(records), n)
    {
      records := records[Lower(name) := ip];
      FindStored(old(records), name, name, ip);
      forall n | !SameIgnoringCase(name, n)
        ensures Find(records, n) == Find(old(records), n)
      {
        FindOther(old(records), name, n, ip);
      }
    }

    /**
     * `lookup`: the address stored under the lower-cased name, if any. What
     * it finds is stored under a name that differs from `name` only in the
     * case of letters; while every stored name is lower-case, it finds
     * something whenever such a name is stored.
     */
    function Lookup(name: seq<byte>): (r: Option<Ipv4>)
      reads this
      ensures r.Some? ==> exists k :: k in records && SameIgnoringCase(name, k) && records[k] == r.value
      ensures Valid() ==> (r.Some? <==> exists k :: k in records && SameIgnoringCase(name, k))
    {
      FindUpToCase(records, name);
      Find(records, name)
    }
  }

  /** The five built-in entries, as `SimpleDnsDatabase::new` stores them. */
  function Seeded(): (m: map<seq<byte>, Ipv4>)
  {
    map[][Lower(Localhost) := [127, 0, 0, 1]][Lower(TestLocal) := [192, 168, 1, 100]]
         [Lower(ServerLocal) := [192, 168, 1, 1]][Lower(ExampleCom) := [93, 184, 216, 34]]
         [Lower(GoogleCom) := [8, 8, 8, 8]]
  }

  /** Each built-in name finds its own address: no later entry replaces an earlier one. */
  lemma SeededLookups()
    ensures Find(Seeded(), Localhost) == Some([127, 0, 0, 1])
    ensures Find(Seeded(), TestLocal) == Some([192, 168, 1, 100])
    ensures Find(Seeded(), ServerLocal) == Some([192, 168, 1, 1])
    ensures Find(Seeded(), ExampleCom) == Some([93, 184, 216, 34])
    ensures Find(Seeded(), GoogleCom) == Some([8, 8, 8, 8])
    ensures |Seeded()| == 5
  {
    assert Lower(Localhost)[0] == 0x6C && Lower(TestLocal)[0] == 0x74 && Lower(ServerLocal)[0] == 0x73;
    assert Lower(ExampleCom)[0] == 0x65 && Lower(GoogleCom)[0] == 0x67;
  }
}
