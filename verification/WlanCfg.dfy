/** The WLAN configuration cache: newest network first, saved to and refreshed from a store that is
    protected by a CRC. */
module WlanCfg {
  import opened Basics
  import opened WlanCrc

  const MAGIC: int := 0x426f6d62  // RT_WLAN_CFG_MAGIC
  const HEAD: int := 16           // sizeof(struct cfg_save_info_head)

  const RADIO: nat := 16     // security, band, datarate, channel, rssi
  const NAME: nat := 33      // RT_WLAN_SSID_MAX_LENGTH + 1
  const ADDRESS: nat := 6    // RT_WLAN_BSSID_MAX_LENGTH
  const HIDDEN: nat := 4     // hidden, and padding
  const KEY: nat := 33       // RT_WLAN_PASSWORD_MAX_LENGTH + 1
  const PADDING: nat := 2

  /** The fields of struct rt_wlan_cfg_info. */
  datatype Fields = Fields(radio: seq<bv8>, ssidLen: bv8, ssidVal: seq<bv8>, bssid: seq<bv8>, hidden: seq<bv8>,
                           keyLen: bv8, keyVal: seq<bv8>, padding: seq<bv8>)

  /** Every field has the size the struct gives it. */
  predicate Sized(f: Fields) {
    |f.radio| == RADIO && |f.ssidVal| == NAME && |f.bssid| == ADDRESS && |f.hidden| == HIDDEN &&
    |f.keyVal| == KEY && |f.padding| == PADDING
  }

  function Zeros(n: nat): (s: seq<bv8>)
    ensures |s| == n
  {
    seq(n, _ => 0)
  }

  function Blank(): (f: Fields)
    ensures Sized(f)
  {
    Fields(Zeros(RADIO), 0, Zeros(NAME), Zeros(ADDRESS), Zeros(HIDDEN), 0, Zeros(KEY), Zeros(PADDING))
  }

  /** A saved network. */
  type Entry = f: Fields | Sized(f) witness Blank()

  /** The used bytes of a name or key. */
  function Used(val: seq<bv8>, len: bv8): seq<bv8> {
    val[..Min(len as int, |val|)]
  }

  /** How a record lies in memory. */
  datatype Layout = Layout(size: nat, encode: Entry -> seq<bv8>, decode: seq<bv8> -> Entry)

  ghost predicate Faithful(l: Layout) {
    l.size > 0 && forall e: Entry :: |l.encode(e)| == l.size && l.decode(l.encode(e)) == e
  }

  /** The layout of the struct with 32-bit enumerations: its fields in order. */
  function StructLayout(): Layout {
    Layout(STRUCT, (e: Entry) => StructEncode(e), (d: seq<bv8>) => StructDecode(d))
  }

  const STRUCT: nat := 96    // sizeof(struct rt_wlan_cfg_info)

  function StructEncode(e: Entry): seq<bv8> {
    e.radio + ([e.ssidLen] + (e.ssidVal + (e.bssid + (e.hidden + ([e.keyLen] + (e.keyVal + e.padding))))))
  }

  function StructDecode(d: seq<bv8>): Entry {
    if |d| != STRUCT then Blank() else
    Fields(d[..16], d[16], d[17..50], d[50..56], d[56..60], d[60], d[61..94], d[94..])
  }

  lemma StructRoundTrip(e: Entry)
    ensures |StructEncode(e)| == STRUCT && StructDecode(StructEncode(e)) == e
  {
    var d := StructEncode(e);
    assert d[..16] == e.radio;
    assert d[17..50] == e.ssidVal;
    assert d[50..56] == e.bssid;
    assert d[56..60] == e.hidden;
    assert d[61..94] == e.keyVal;
    assert d[94..] == e.padding;
  }

  /** Records survive being copied byte by byte, as the theorems below ask of a layout. */
  lemma StructFaithful()
    ensures Faithful(StructLayout())
  {
    forall e: Entry
      ensures |StructLayout().encode(e)| == STRUCT && StructLayout().decode(StructLayout().encode(e)) == e
    {
      StructRoundTrip(e);
    }
  }

  /** What is in the store. */
  datatype Package = Package(magic: int, len: int, num: int, crc: bv16, data: seq<bv8>)

  datatype Error = Ok | Invalid | NoMemory | Failed

  predicate SameNet(a: Entry, b: Entry) {
    a.ssidLen == b.ssidLen && Used(a.ssidVal, a.ssidLen) == Used(b.ssidVal, a.ssidLen) && a.bssid == b.bssid
  }

  predicate SameKey(a: Entry, b: Entry) {
    a.keyLen == b.keyLen && Used(a.keyVal, b.keyLen) == Used(b.keyVal, b.keyLen)
  }

  /** The same network: name and hardware address, byte for byte; nothing else counts. */
  lemma SameNetExactly(a: Entry, b: Entry)
    ensures SameNet(a, b) <==>
            a.ssidLen == b.ssidLen &&
            (forall k :: 0 <= k < NAME && k < a.ssidLen as int ==> a.ssidVal[k] == b.ssidVal[k]) &&
            forall k :: 0 <= k < ADDRESS ==> a.bssid[k] == b.bssid[k]
  {
    UsedSame(a.ssidVal, b.ssidVal, a.ssidLen);
    if forall k :: 0 <= k < ADDRESS ==> a.bssid[k] == b.bssid[k] {
      assert a.bssid == b.bssid;
    }
  }

  lemma SameKeyExactly(a: Entry, b: Entry)
    ensures SameKey(a, b) <==>
            a.keyLen == b.keyLen && forall k :: 0 <= k < KEY && k < a.keyLen as int ==> a.keyVal[k] == b.keyVal[k]
  {
    UsedSame(a.keyVal, b.keyVal, b.keyLen);
  }

  lemma UsedSame(a: seq<bv8>, b: seq<bv8>, len: bv8)
    requires |a| == |b|
    ensures Used(a, len) == Used(b, len) <==> forall k :: 0 <= k < |a| && k < len as int ==> a[k] == b[k]
  {
    var n := Min(len as int, |a|);
    if a[..n] == b[..n] {
      forall k | 0 <= k < |a| && k < len as int
        ensures a[k] == b[k]
      {
        assert a[..n][k] == b[..n][k];
      }
    }
  }

  /** Where a network is in the list, or the list's length. */
  function Find(es: seq<Entry>, e: Entry): (i: nat)
    ensures i <= |es| && (i < |es| ==> SameNet(es[i], e))
    ensures forall k :: 0 <= k < i ==> !SameNet(es[k], e)
  {
    if es == [] then 0 else if SameNet(es[0], e) then 0 else
    var i := Find(es[1..], e);
    assert forall k :: 0 < k < i + 1 ==> es[k] == es[1..][k - 1];
    i + 1
  }

  /** The list when rt_wlan_cfg_save changes it: entries before the found one, or all but
      a last one too many, move back by one, and the new entry is in front. */
  function MovedToFront(es: seq<Entry>, e: Entry, max: nat): seq<Entry>
    requires |es| <= max && max >= 1
  {
    var i := Min(Find(es, e), max - 1);
    [e] + es[..i] + if i < |es| then es[i + 1..] else []
  }

  /** The network is in the list. */
  ghost predicate Listed(es: seq<Entry>, e: Entry) {
    exists k :: 0 <= k < |es| && SameNet(es[k], e)
  }

  /** The newest entry is this network with this key. */
  predicate Newest(es: seq<Entry>, e: Entry) {
    es != [] && SameNet(es[0], e) && SameKey(es[0], e)
  }

  /** A network is new, and although the list is not full there is no memory for it. */
  ghost predicate NoRoom(es: seq<Entry>, e: Entry, grows: bool, max: nat) {
    !Listed(es, e) && |es| < max && !grows
  }

  // ---------------------------------------------------------------- the store

  /** The records one after the other, as memcpy copies them. */
  function Concat(l: Layout, es: seq<Entry>): seq<bv8> {
    if es == [] then [] else l.encode(es[0]) + Concat(l, es[1..])
  }

  /** The records in a block of bytes. */
  function Split(l: Layout, data: seq<bv8>): seq<Entry>
    requires l.size > 0
    decreases |data|
  {
    if |data| < l.size then [] else [l.decode(data[..l.size])] + Split(l, data[l.size..])
  }

  /** The package of rt_wlan_cfg_cache_save. */
  function Packed(l: Layout, es: seq<Entry>): Package {
    var data := Concat(l, es);
    Package(MAGIC, HEAD + |data|, |es|, Crc(data), data)
  }

  /** The checks of rt_wlan_cfg_cache_refresh on a package. */
  predicate Accepted(l: Layout, p: Package)
    requires l.size > 0
  {
    p.magic == MAGIC && p.len == HEAD + |p.data| && p.num == |p.data| / l.size && p.crc == Crc(p.data)
  }

  /** The loop of rt_wlan_cfg_cache_refresh: networks not yet in the list join it at the end until
      it is full. After `grows` reallocations the next one fails. */
  function Merged(es: seq<Entry>, more: seq<Entry>, grows: nat, max: nat): (Error, seq<Entry>)
    decreases |more|
  {
    if more == [] || |es| >= max then (Ok, es)
    else if Find(es, more[0]) < |es| then Merged(es, more[1..], grows, max)
    else if grows == 0 then (Failed, es)
    else Merged(es + [more[0]], more[1..], grows - 1, max)
  }

  // ---------------------------------------------------------------- what the list is for

  /** No network twice. */
  ghost predicate Unique(es: seq<Entry>) {
    forall i, j :: 0 <= i < j < |es| ==> !SameNet(es[i], es[j])
  }

  /** The entries for other networks, in order. */
  function Others(es: seq<Entry>, e: Entry): seq<Entry> {
    if es == [] then [] else (if SameNet(es[0], e) then [] else [es[0]]) + Others(es[1..], e)
  }

  lemma {:induction false} OthersAll(es: seq<Entry>, e: Entry)
    requires forall k :: 0 <= k < |es| ==> !SameNet(es[k], e)
    ensures Others(es, e) == es
  {
    if es != [] {
      OthersAll(es[1..], e);
    }
  }

  lemma {:induction false} OthersAt(es: seq<Entry>, e: Entry, i: nat)
    requires i < |es| && Unique(es) && SameNet(es[i], e)
    ensures Others(es, e) == es[..i] + es[i + 1..]
  {
    if i == 0 {
      forall k | 0 <= k < |es[1..]|
        ensures !SameNet(es[1..][k], e)
      {
        assert !SameNet(es[0], es[k + 1]);
      }
      OthersAll(es[1..], e);
    } else {
      assert !SameNet(es[0], es[i]);
      OthersAt(es[1..], e, i - 1);
      assert es[..i] + es[i + 1..] == [es[0]] + (es[1..][..i - 1] + es[1..][i..]);
    }
  }

  /** Saving a network puts it in front of the entries for all other networks, the oldest of which
      is dropped when there is no room for it; networks stay unique. */
  lemma SavedExactly(es: seq<Entry>, e: Entry, max: nat)
    requires Unique(es) && |es| <= max && max >= 1
    ensures var all := [e] + Others(es, e);
            MovedToFront(es, e, max) == all[..Min(|all|, max)]
    ensures Unique(MovedToFront(es, e, max)) && |MovedToFront(es, e, max)| <= max
  {
    hide SameNet, Unique, Others;
    var i := Find(es, e);
    if i < |es| {
      OthersAt(es, e, i);
      Cut([e] + (es[..i] + es[i + 1..]), max);
    } else {
      OthersAll(es, e);
      FrontNew(es, e, max);
    }
    FrontUnique(es, e, max);
  }

  lemma Cut(es: seq<Entry>, max: nat)
    requires |es| <= max
    ensures es[..Min(|es|, max)] == es
  {
  }

  lemma FrontNew(es: seq<Entry>, e: Entry, max: nat)
    requires Find(es, e) == |es| <= max && max >= 1
    ensures MovedToFront(es, e, max) == ([e] + es)[..Min(|es| + 1, max)]
  {
    hide SameNet;
  }

  lemma FrontUnique(es: seq<Entry>, e: Entry, max: nat)
    requires Unique(es) && |es| <= max && max >= 1
    ensures Unique(MovedToFront(es, e, max)) && |MovedToFront(es, e, max)| <= max
  {
    var found := Find(es, e);
    var i := Min(found, max - 1);
    var r := MovedToFront(es, e, max);
    forall a, b | 0 <= a < b < |r|
      ensures !SameNet(r[a], r[b])
    {
      var y := if b - 1 < i then b - 1 else b;
      assert r[b] == es[y];
      if a == 0 {
        if found < y {
          assert !SameNet(es[found], es[y]);
        }
      } else {
        var x := if a - 1 < i then a - 1 else a;
        assert r[a] == es[x];
      }
    }
  }

  /** All of the networks are in the list. */
  ghost predicate AllPresent(r: seq<Entry>, more: seq<Entry>) {
    forall k :: 0 <= k < |more| ==> Find(r, more[k]) < |r|
  }

  lemma PresentFirst(r: seq<Entry>, es: seq<Entry>, more: seq<Entry>)
    requires more != [] && |es| <= |r| && r[..|es|] == es && AllPresent(r, more[1..])
    requires exists j :: 0 <= j < |es| && SameNet(es[j], more[0])
    ensures AllPresent(r, more)
  {
    hide SameNet;
    var j :| 0 <= j < |es| && SameNet(es[j], more[0]);
    assert r[j] == es[j];
    forall k | 0 <= k < |more|
      ensures Find(r, more[k]) < |r|
    {
      assert k > 0 ==> more[k] == more[1..][k - 1];
    }
  }

  /** Refreshing keeps what is there, keeps networks unique, and on success leaves a network of the
      store out only when the list is full. */
  lemma {:induction false} MergedKeeps(es: seq<Entry>, more: seq<Entry>, grows: nat, max: nat)
    requires Unique(es) && |es| <= max && max >= 1
    ensures var (err, r) := Merged(es, more, grows, max);
            |es| <= |r| <= max && r[..|es|] == es && Unique(r) &&
            (err.Ok? && |r| < max ==> AllPresent(r, more))
    decreases |more|
  {
    hide Unique, SameNet, AllPresent;
    if more == [] {
      NonePresent(es);
    } else if |es| < max {
      var i := Find(es, more[0]);
      if i < |es| {
        MergedKeeps(es, more[1..], grows, max);
        var (err, r) := Merged(es, more[1..], grows, max);
        if err.Ok? && |r| < max {
          PresentFirst(r, es, more);
        }
      } else if grows > 0 {
        var es' := es + [more[0]];
        UniqueMore(es, more[0]);
        MergedKeeps(es', more[1..], grows - 1, max);
        var (err, r) := Merged(es', more[1..], grows - 1, max);
        assert es'[..|es|] == es && es'[|es|] == more[0];
        assert r[..|es|] == r[..|es'|][..|es|];
        if err.Ok? && |r| < max {
          SameItself(more[0]);
          PresentFirst(r, es', more);
        }
      }
    }
  }

  lemma NonePresent(es: seq<Entry>)
    ensures AllPresent(es, [])
  {
  }

  lemma SameItself(e: Entry)
    ensures SameNet(e, e)
  {
  }

  /** Unique networks merged into the empty list come back as they are. */
  lemma {:induction false} MergedAll(es: seq<Entry>, more: seq<Entry>, grows: nat, max: nat)
    requires Unique(es + more) && |es + more| <= max && grows >= |more|
    ensures Merged(es, more, grows, max) == (Ok, es + more)
    decreases |more|
  {
    if more == [] {
      assert es + more == es;
    } else {
      forall k | 0 <= k < |es|
        ensures !SameNet(es[k], more[0])
      {
        assert !SameNet((es + more)[k], (es + more)[|es|]);
      }
      assert es + [more[0]] + more[1..] == es + more;
      MergedAll(es + [more[0]], more[1..], grows - 1, max);
    }
  }

  /** The entries of `more` for networks that are neither in the list nor earlier in `more`, in order. */
  ghost function News(es: seq<Entry>, more: seq<Entry>): seq<Entry>
    decreases |more|
  {
    if more == [] then []
    else if Listed(es, more[0]) then News(es, more[1..])
    else [more[0]] + News(es + [more[0]], more[1..])
  }

  /** A refresh appends the new networks in order, as many as there is room and memory for, and fails
      if and only if memory runs out first. */
  lemma {:induction false} MergedExactly(es: seq<Entry>, more: seq<Entry>, grows: nat, max: nat)
    requires |es| <= max
    ensures var news, room := News(es, more), max - |es|;
            Merged(es, more, grows, max) ==
            if grows < |news| && grows < room then (Failed, es + news[..grows]) else (Ok, es + news[..Min(|news|, room)])
    decreases |more|
  {
    hide SameNet, Listed;
    assert es + [] == es;
    if more != [] && |es| < max {
      FindListed(es, more[0]);
      if Find(es, more[0]) < |es| {
        MergedExactly(es, more[1..], grows, max);
      } else if grows > 0 {
        var es' := es + [more[0]];
        var later := News(es', more[1..]);
        MergedExactly(es', more[1..], grows - 1, max);
        assert forall k :: 0 <= k <= |later| ==> es' + later[..k] == es + ([more[0]] + later)[..k + 1];
      }
    }
  }

  lemma FindListed(es: seq<Entry>, e: Entry)
    ensures Find(es, e) < |es| <==> Listed(es, e)
  {
    hide SameNet;
  }

  // ---------------------------------------------------------------- round trip and corruption

  lemma {:induction false} ConcatLength(l: Layout, es: seq<Entry>)
    requires Faithful(l)
    ensures |Concat(l, es)| == |es| * l.size
  {
    if es != [] {
      ConcatLength(l, es[1..]);
      assert (|es| - 1) * l.size + l.size == |es| * l.size;
    }
  }

  lemma {:induction false} SplitConcat(l: Layout, es: seq<Entry>)
    requires Faithful(l)
    ensures Split(l, Concat(l, es)) == es
  {
    if es != [] {
      var rest := Concat(l, es[1..]);
      SplitConcat(l, es[1..]);
      assert Concat(l, es)[..l.size] == l.encode(es[0]);
      assert Concat(l, es)[l.size..] == rest;
    }
  }

  /** The package: magic number, length with the header, number of records, CRC, and the records one
      after the other. */
  lemma {:induction false} PackedExactly(l: Layout, es: seq<Entry>)
    requires Faithful(l)
    ensures var p := Packed(l, es);
            p.magic == 0x426f6d62 && p.len == 16 + |p.data| && p.num == |es| && p.crc == Crc(p.data) &&
            |p.data| == |es| * l.size &&
            forall k :: 0 <= k < |es| ==> RecordAt(l, p.data, k, es[k])
  {
    hide Crc;
    ConcatLength(l, es);
    forall k | 0 <= k < |es|
      ensures RecordAt(l, Concat(l, es), k, es[k])
    {
      ConcatAt(l, es, k);
    }
  }

  /** The k-th record of a block of bytes. */
  ghost predicate RecordAt(l: Layout, data: seq<bv8>, k: nat, e: Entry) {
    (k + 1) * l.size <= |data| && k * l.size >= 0 && data[k * l.size..(k + 1) * l.size] == l.encode(e)
  }

  lemma {:induction false} ConcatAt(l: Layout, es: seq<Entry>, k: nat)
    requires Faithful(l) && k < |es|
    ensures RecordAt(l, Concat(l, es), k, es[k])
  {
    ConcatLength(l, es);
    Monotone(l.size, k + 1, |es|);
    Monotone(l.size, 0, k);
    assert (k + 1) * l.size == k * l.size + l.size;
    var data, rest := Concat(l, es), Concat(l, es[1..]);
    assert data == l.encode(es[0]) + rest && |l.encode(es[0])| == l.size;
    if k == 0 {
      assert data[0..l.size] == l.encode(es[0]);
    } else {
      ConcatAt(l, es[1..], k - 1);
      assert k * l.size == (k - 1) * l.size + l.size;
      assert data[k * l.size..(k + 1) * l.size] == rest[(k - 1) * l.size..k * l.size];
    }
  }

  /** A package of whole records is accepted if and only if it is one that a save writes. */
  lemma AcceptedExactly(p: Package)
    requires |p.data| % STRUCT == 0
    ensures Accepted(StructLayout(), p) <==> p == Packed(StructLayout(), Split(StructLayout(), p.data))
  {
    hide Crc;
    SplitBack(p.data);
    StructFaithful();
    var n := |p.data| / STRUCT;
    ConcatLength(StructLayout(), Split(StructLayout(), p.data));
    assert StructLayout().size == STRUCT;
  }

  lemma {:induction false} SplitBack(data: seq<bv8>)
    requires |data| % STRUCT == 0
    ensures Concat(StructLayout(), Split(StructLayout(), data)) == data
    decreases |data|
  {
    if data == [] {
    } else {
      StructBack(data[..STRUCT]);
      SplitBack(data[STRUCT..]);
      var es := Split(StructLayout(), data);
      assert es[0] == StructDecode(data[..STRUCT]) && es[1..] == Split(StructLayout(), data[STRUCT..]);
      assert data[..STRUCT] + data[STRUCT..] == data;
    }
  }

  lemma StructBack(d: seq<bv8>)
    requires |d| == STRUCT
    ensures StructEncode(StructDecode(d)) == d
  {
    var a, b, c := d[..50], d[50..61], d[61..];
    assert d[..16] + ([d[16]] + d[17..50]) == a;
    assert d[50..56] + (d[56..60] + [d[60]]) == b;
    assert d[61..94] + d[94..] == c;
    assert a + b + c == d;
  }

  /** Where the fields of a record lie. */
  lemma StructOffsets(e: Entry)
    ensures var d := StructEncode(e);
            |d| == 96 && d[0..16] == e.radio && d[16] == e.ssidLen && d[17..50] == e.ssidVal && d[50..56] == e.bssid &&
            d[56..60] == e.hidden && d[60] == e.keyLen && d[61..94] == e.keyVal && d[94..96] == e.padding
  {
    StructRoundTrip(e);
    var d := StructEncode(e);
    assert d[0..16] == d[..16] && d[94..96] == d[94..];
  }

  /** What was saved is accepted, and refreshing an emptied list restores it, in the same order. */
  lemma SaveRefresh(l: Layout, es: seq<Entry>, grows: nat, max: nat)
    requires Faithful(l) && Unique(es) && |es| <= max && grows >= |es|
    ensures Accepted(l, Packed(l, es))
    ensures Merged([], Split(l, Packed(l, es).data), grows, max) == (Ok, es)
  {
    hide Crc;
    ConcatLength(l, es);
    Quotient(|es| * l.size, l.size, |es|, 0);
    SplitConcat(l, es);
    assert [] + es == es;
    MergedAll([], es, grows, max);
  }

  /** In particular for records as the compiler lays them out. */
  lemma StructSaveRefresh(es: seq<Entry>, grows: nat, max: nat)
    requires Unique(es) && |es| <= max && max >= 1 && grows >= |es|
    ensures Accepted(StructLayout(), Packed(StructLayout(), es))
    ensures Merged([], Split(StructLayout(), Packed(StructLayout(), es).data), grows, max) == (Ok, es)
  {
    StructFaithful();
    SaveRefresh(StructLayout(), es, grows, max);
  }

  /** A package whose records were changed in one byte or two adjacent bytes is accepted only if
      nothing changed. */
  lemma CorruptionRejected(l: Layout, es: seq<Entry>, pre: seq<bv8>, x: bv8, y: bv8, x': bv8, y': bv8, post: seq<bv8>)
    requires Faithful(l) && Concat(l, es) == pre + [x, y] + post
    ensures Accepted(l, Packed(l, es).(data := pre + [x', y'] + post)) <==> x == x' && y == y'
  {
    hide Crc;
    AdjacentDetected(pre, x, y, x', y', post);
    ConcatLength(l, es);
    Quotient(|es| * l.size, l.size, |es|, 0);
  }

  /** The same for a burst: changes within sixteen consecutive bits. */
  lemma BurstRejected(l: Layout, es: seq<Entry>, pre: seq<bv8>, x: bv8, y: bv8, z: bv8, w: bv16, n: nat, post: seq<bv8>)
    requires Faithful(l) && Concat(l, es) == pre + [x, y, z] + post && n <= 8
    ensures Accepted(l, Packed(l, es).(data := pre + Hit(x, y, z, Slide(w as bv24, n)) + post)) <==> w == 0
  {
    hide Crc, Slide;
    BurstDetected(pre, x, y, z, w, n, post);
    ConcatLength(l, es);
    Quotient(|es| * l.size, l.size, |es|, 0);
  }

  // ---------------------------------------------------------------- the cache

  class Cache {
    const layout: Layout
    const max: nat
    var num: int
    var cfgInfo: array<Entry>
    var store: Option<Package>   // None without callbacks

    ghost predicate Valid()
      reads this, cfgInfo
    {
      layout.size > 0 && max >= 1 && 0 <= num <= cfgInfo.Length && num <= max && Unique(cfgInfo[..num])
    }

    ghost function Entries(): seq<Entry>
      reads this, cfgInfo
      requires Valid()
    {
      cfgInfo[..num]
    }

    /** rt_wlan_cfg_init and rt_wlan_cfg_set_ops. */
    constructor (layout: Layout, max: nat, store: Option<Package>)
      requires layout.size > 0 && max >= 1
      ensures Valid() && Entries() == [] && this.store == store && this.layout == layout && this.max == max
      ensures fresh(cfgInfo)
    {
      this.layout := layout;
      this.max := max;
      this.store := store;
      num := 0;
      cfgInfo := new Entry[0];
    }

    /** The search both operations start with. */
    method Search(e: Entry) returns (i: int)
      requires Valid()
      ensures i == Find(Entries(), e)
    {
      i := 0;
      while i < num
        invariant 0 <= i <= num
        invariant forall k :: 0 <= k < i ==> !SameNet(cfgInfo[k], e)
      {
        if SameNet(cfgInfo[i], e) {
          break;
        }
        i := i + 1;
      }
    }

    /** rt_realloc to one more record; what the new record holds is left open by C and is `fill`
        here. */
    method Grow(fill: Entry)
      requires Valid()
      modifies this`cfgInfo
      ensures Valid() && fresh(cfgInfo) && cfgInfo.Length == num + 1 && Entries() == old(Entries())
    {
      var es, n := cfgInfo[..num], num;
      cfgInfo := new Entry[n + 1](k requires 0 <= k < n + 1 => if k < |es| then es[k] else fill);
      assert cfgInfo[..num] == es;
    }

    /** rt_wlan_cfg_save. A network without a name is refused. The list stays if its newest entry is
        the network with the same key, and if the network is new and the array cannot grow for it. In
        all other cases the network moves to the front, the entries for other networks behind it, cut to
        the maximum, and the package is written. */
    method Save(e: Entry, grows: bool, alloc: bool, written: bool) returns (err: Error)
      requires Valid()
      modifies this, cfgInfo
      ensures Valid() && (cfgInfo == old(cfgInfo) || fresh(cfgInfo))
      ensures e.ssidLen == 0 || Newest(old(Entries()), e) || NoRoom(old(Entries()), e, grows, max) ==>
                Entries() == old(Entries()) && store == old(store) &&
                err == if e.ssidLen == 0 then Invalid else if Newest(old(Entries()), e) then Ok else NoMemory
      ensures e.ssidLen != 0 && !Newest(old(Entries()), e) && !NoRoom(old(Entries()), e, grows, max) ==>
                (var all := [e] + Others(old(Entries()), e); Entries() == all[..Min(|all|, max)]) &&
                err == (if store.None? then Ok else if !alloc then NoMemory else if written then Ok else Failed) &&
                store == if old(store).Some? && alloc && written then Some(Packed(layout, Entries())) else old(store)
    {
      hide Packed, Unique, MovedToFront, Others, SameNet, SameKey;
      if e.ssidLen == 0 {
        return Invalid;
      }
      ghost var es := Entries();
      var i := Search(e);
      if i == 0 && num > 0 && SameKey(cfgInfo[0], e) {
        return Ok;
      }
      SavedExactly(es, e, max);
      var size := num;
      if i == num && num < max {
        if !grows {
          return NoMemory;
        }
        Grow(e);
        size := num + 1;
      }
      MoveToFront(i, size, e);
      err := CacheSave(alloc, written);
    }

    /** The entries up to the found one, or the last that fits, move back for the new one. */
    method MoveToFront(found: int, size: int, e: Entry)
      requires Valid() && found == Find(Entries(), e)
      requires size == (if found == num && num < max then num + 1 else num) <= cfgInfo.Length
      modifies this`num, cfgInfo
      ensures num == size && cfgInfo[..num] == MovedToFront(old(Entries()), e, max)
    {
      hide Unique;
      ghost var es := Entries();
      var i := if found >= max then max - 1 else found;
      ghost var was := cfgInfo[..];
      assert was[..i] == es[..i];
      assert i < num ==> was[i + 1..size] == es[i + 1..];
      PutInFront(i, size, e);
      num := size;
    }

    /** The shifting loop and the new head. */
    method PutInFront(i: int, size: int, e: Entry)
      requires 0 <= i < size <= cfgInfo.Length
      modifies cfgInfo
      ensures cfgInfo[..size] == [e] + old(cfgInfo[..i]) + old(cfgInfo[i + 1..size])
    {
      ghost var was := cfgInfo[..];
      var k := i;
      while k > 0
        invariant 0 <= k <= i
        invariant forall j :: 0 <= j <= k || i < j < cfgInfo.Length ==> cfgInfo[j] == was[j]
        invariant forall j :: k < j <= i ==> cfgInfo[j] == was[j - 1]
      {
        cfgInfo[k] := cfgInfo[k - 1];
        k := k - 1;
      }
      cfgInfo[0] := e;
      Rotated(was, cfgInfo[..], i, size, e);
    }

    /** rt_wlan_cfg_cache_save: `alloc` tells whether the package buffer is there, `written` whether
        the write callback takes all of it. */
    method CacheSave(alloc: bool, written: bool) returns (err: Error)
      requires Valid()
      modifies this`store
      ensures err == if store.None? then Ok else if !alloc then NoMemory else if written then Ok else Failed
      ensures store == if old(store).Some? && alloc && written then Some(Packed(layout, Entries())) else old(store)
    {
      if store.None? {
        return Ok;
      }
      if !alloc {
        return NoMemory;
      }
      var data := Concat(layout, cfgInfo[..num]);
      var crc := CalCrc(data);
      if !written {
        return Failed;
      }
      store := Some(Package(MAGIC, HEAD + |data|, num, crc, data));
      err := Ok;
    }

    /** rt_wlan_cfg_cache_refresh: `readable` tells whether buffer and callbacks deliver the package. */
    method CacheRefresh(readable: bool, grows: nat) returns (err: Error)
      requires Valid()
      modifies this`num, this`cfgInfo, cfgInfo
      ensures Valid()
      ensures (err, Entries()) ==
              if old(num) >= max || store.None? || !readable || !Accepted(layout, store.value)
              then (Failed, old(Entries()))
              else Merged(old(Entries()), Split(layout, store.value.data), grows, max)
    {
      hide Crc;
      if num >= max {
        return Failed;
      }
      if store.None? || !readable {
        return Failed;
      }
      var head := store.value;
      var crc := CalCrc(head.data);
      if head.magic != MAGIC || head.len != HEAD + |head.data| || head.num != |head.data| / layout.size || head.crc != crc {
        return Failed;
      }
      var records := Split(layout, head.data);
      err := Merge(records, grows);
    }

    /** The loop over the stored records. */
    method Merge(records: seq<Entry>, grows: nat) returns (err: Error)
      requires Valid()
      modifies this`num, this`cfgInfo, cfgInfo
      ensures Valid() && (err, Entries()) == Merged(old(Entries()), records, grows, max)
    {
      hide Unique, Find, SameNet;
      ghost var start := Entries();
      var i, left := 0, grows;
      assert records[0..] == records;
      while i < |records|
        invariant 0 <= i <= |records| && Valid() && (cfgInfo == old(cfgInfo) || fresh(cfgInfo))
        invariant Merged(start, records, grows, max) == Merged(Entries(), records[i..], left, max)
      {
        var j := Search(records[i]);
        assert records[i..][1..] == records[i + 1..];
        if num >= max {
          break;
        }
        if j == num {
          if left == 0 {
            return Failed;
          }
          left := left - 1;
          Add(records[i]);
        }
        i := i + 1;
      }
      err := Ok;
    }

    /** One more record at the end. */
    method Add(e: Entry)
      requires Valid() && num < max && Find(Entries(), e) == num
      modifies this`num, this`cfgInfo
      ensures Valid() && fresh(cfgInfo) && Entries() == old(Entries()) + [e]
    {
      ghost var es := Entries();
      Grow(e);
      cfgInfo[num] := e;
      UniqueMore(es, e);
      assert cfgInfo[..num + 1] == es + [e];
      num := num + 1;
    }

    /** rt_wlan_cfg_delete_all. */
    method DeleteAll()
      requires Valid()
      modifies this
      ensures Valid() && Entries() == [] && store == old(store) && fresh(cfgInfo)
    {
      num := 0;
      cfgInfo := new Entry[0];
    }
  }

  lemma UniqueMore(es: seq<Entry>, e: Entry)
    requires Unique(es) && Find(es, e) == |es|
    ensures Unique(es + [e])
  {
  }

  lemma Rotated(was: seq<Entry>, now: seq<Entry>, i: int, size: int, e: Entry)
    requires 0 <= i < size <= |was| == |now| && now[0] == e
    requires forall j :: i < j < |was| ==> now[j] == was[j]
    requires forall j :: 0 < j <= i ==> now[j] == was[j - 1]
    ensures now[..size] == [e] + was[..i] + was[i + 1..size]
  {
  }
}
