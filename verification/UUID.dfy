/**
 Domain UUIDs as VM ids (uuidToString in internal/libvirt/metric/vm/vm_metrics.go):
 the text of section 4 of RFC 9562, which identifies the UUID.
 */
module UUID {
  import opened Wrappers
  import opened VMInfoSync

  function HexDigit(d: nat): char
    requires d < 16
  {
    if d < 10 then '0' + d as char else 'a' + (d - 10) as char
  }

  /** The verb %x: lower case, no leading zeros. */
  function Hex(n: nat): (r: string)
    ensures r != ""
  {
    if n < 16 then [HexDigit(n)] else Hex(n / 16) + [HexDigit(n % 16)]
  }

  function Zeros(k: nat): (r: string)
    ensures |r| == k
  {
    seq(k, i => '0')
  }

  /** The verb %0wx: padded with zeros to at least a width. */
  function PaddedHex(n: nat, width: nat): string {
    if |Hex(n)| >= width then Hex(n) else Zeros(width - |Hex(n)|) + Hex(n)
  }

  /** Bytes shifted into one number, most significant first. */
  function Join(bytes: seq<u8>): nat {
    if bytes == [] then 0 else 256 * Join(bytes[..|bytes| - 1]) + bytes[|bytes| - 1]
  }

  function UUIDToString(u: seq<u8>): string {
    if |u| != 16 then ""
    else
      PaddedHex(Join(u[0..4]), 8) + "-" +
      PaddedHex(Join(u[4..6]), 4) + "-" +
      PaddedHex(Join(u[6..8]), 4) + "-" +
      PaddedHex(Join(u[8..10]), 4) + "-" +
      PaddedHex(Join(u[10..16]), 12)
  }

  /** Two digits for every byte. */
  function HexBytes(bytes: seq<u8>): (r: string)
    ensures |r| == 2 * |bytes|
  {
    if bytes == [] then ""
    else
      var b := bytes[|bytes| - 1];
      HexBytes(bytes[..|bytes| - 1]) + [HexDigit(b / 16), HexDigit(b % 16)]
  }

  /** Exactly w digits of a number. */
  function LastDigits(n: nat, w: nat): (r: string)
    ensures |r| == w
  {
    if w == 0 then "" else LastDigits(n / 16, w - 1) + [HexDigit(n % 16)]
  }

  function Power16(w: nat): nat {
    if w == 0 then 1 else 16 * Power16(w - 1)
  }

  lemma {:induction false} ZeroDigits(w: nat)
    ensures LastDigits(0, w) == Zeros(w)
  {
    if w > 0 {
      ZeroDigits(w - 1);
    }
  }

  lemma {:induction false} PaddedIsFixed(n: nat, w: nat)
    requires w > 0 && n < Power16(w)
    ensures |Hex(n)| <= w && PaddedHex(n, w) == LastDigits(n, w)
  {
    if n < 16 {
      ZeroDigits(w - 1);
      assert n / 16 == 0 && n % 16 == n;
      assert Zeros(w - 1) + [HexDigit(n)] == LastDigits(n, w);
    } else {
      assert w > 1;
      PaddedIsFixed(n / 16, w - 1);
      assert Hex(n) == Hex(n / 16) + [HexDigit(n % 16)];
    }
  }

  /** A byte put after a number adds two digits. */
  lemma TwoDigits(high: nat, b: u8, w: nat)
    requires high < Power16(w)
    ensures 256 * high + b < Power16(w + 2)
    ensures LastDigits(256 * high + b, w + 2) == LastDigits(high, w) + [HexDigit(b / 16), HexDigit(b % 16)]
  {
    var all := 256 * high + b;
    assert all / 16 == 16 * high + b / 16 && all % 16 == b % 16;
    var mid := all / 16;
    assert mid / 16 == high && mid % 16 == b / 16;
    assert LastDigits(mid, w + 1) == LastDigits(high, w) + [HexDigit(b / 16)];
    assert Power16(w + 2) == 16 * Power16(w + 1);
  }

  lemma {:induction false} JoinDigits(bytes: seq<u8>)
    ensures Join(bytes) < Power16(2 * |bytes|)
    ensures LastDigits(Join(bytes), 2 * |bytes|) == HexBytes(bytes)
  {
    if bytes != [] {
      var n := |bytes| - 1;
      JoinDigits(bytes[..n]);
      TwoDigits(Join(bytes[..n]), bytes[n], 2 * n);
    }
  }

  lemma GroupText(bytes: seq<u8>)
    requires bytes != []
    ensures PaddedHex(Join(bytes), 2 * |bytes|) == HexBytes(bytes)
  {
    JoinDigits(bytes);
    PaddedIsFixed(Join(bytes), 2 * |bytes|);
  }

  /** The layout: groups of 8, 4, 4, 4 and 12 digits, two for each byte in order, joined by hyphens. */
  lemma Layout(u: seq<u8>)
    requires |u| == 16
    ensures UUIDToString(u) == HexBytes(u[0..4]) + "-" + HexBytes(u[4..6]) + "-" + HexBytes(u[6..8]) + "-"
                               + HexBytes(u[8..10]) + "-" + HexBytes(u[10..16])
    ensures |UUIDToString(u)| == 36
  {
    GroupText(u[0..4]);
    GroupText(u[4..6]);
    GroupText(u[6..8]);
    GroupText(u[8..10]);
    GroupText(u[10..16]);
  }

  /** The digits of a byte: its high and its low half, in lower case. */
  lemma {:induction false} HexBytesAt(bytes: seq<u8>, i: nat)
    requires i < |bytes|
    ensures HexBytes(bytes)[2 * i] == "0123456789abcdef"[bytes[i] / 16]
    ensures HexBytes(bytes)[2 * i + 1] == "0123456789abcdef"[bytes[i] % 16]
  {
    if i == |bytes| - 1 {
      DigitAt(bytes[i] / 16);
      DigitAt(bytes[i] % 16);
    } else {
      HexBytesAt(bytes[..|bytes| - 1], i);
    }
  }

  lemma DigitAt(d: nat)
    requires d < 16
    ensures HexDigit(d) == "0123456789abcdef"[d]
  {
  }

  // Reading an id back.

  function DigitValue(c: char): nat
  {
    if '0' <= c <= '9' then (c - '0') as nat
    else if 'a' <= c <= 'f' then (c - 'a') as nat + 10
    else 0
  }

  function BytesOf(s: string): seq<u8> {
    if |s| < 2 then []
    else
      BytesOf(s[..|s| - 2]) + [(16 * DigitValue(s[|s| - 2]) + DigitValue(s[|s| - 1])) % 256]
  }

  /** The hexadecimal digits of an id, without its hyphens, as bytes. */
  function ParseUUID(s: string): seq<u8> {
    if |s| != 36 then [] else BytesOf(s[0..8] + s[9..13] + s[14..18] + s[19..23] + s[24..36])
  }

  lemma ByteBack(b: u8)
    ensures (16 * DigitValue(HexDigit(b / 16)) + DigitValue(HexDigit(b % 16))) % 256 == b
  {
    assert DigitValue(HexDigit(b / 16)) == b / 16 && DigitValue(HexDigit(b % 16)) == b % 16;
  }

  lemma BytesOfAppend(s: string, x: char, y: char)
    ensures BytesOf(s + [x, y]) == BytesOf(s) + [(16 * DigitValue(x) + DigitValue(y)) % 256]
  {
    assert (s + [x, y])[..|s|] == s;
  }

  lemma {:induction false} BytesBack(bytes: seq<u8>)
    ensures BytesOf(HexBytes(bytes)) == bytes
  {
    if bytes != [] {
      var n := |bytes| - 1;
      BytesBack(bytes[..n]);
      BytesOfAppend(HexBytes(bytes[..n]), HexDigit(bytes[n] / 16), HexDigit(bytes[n] % 16));
      ByteBack(bytes[n]);
    }
  }

  lemma {:induction false} HexBytesConcat(a: seq<u8>, b: seq<u8>)
    ensures HexBytes(a + b) == HexBytes(a) + HexBytes(b)
  {
    if b == [] {
      assert a + b == a;
    } else {
      assert (a + b)[..|a + b| - 1] == a + b[..|b| - 1];
      HexBytesConcat(a, b[..|b| - 1]);
    }
  }

  lemma CutGroups(s: string, a: string, b: string, c: string, d: string, e: string)
    requires |a| == 8 && |b| == |c| == |d| == 4 && |e| == 12
    requires s == a + "-" + b + "-" + c + "-" + d + "-" + e
    ensures |s| == 36
    ensures s[0..8] == a && s[9..13] == b && s[14..18] == c && s[19..23] == d && s[24..36] == e
  {
    var left := a + "-" + b + "-" + c;
    assert s == left + ("-" + d + "-" + e);
    assert left == a + ("-" + b) + ("-" + c);
    assert s[0..8] == left[0..8] == a;
    assert s[9..13] == left[9..13] == b;
    assert s[14..18] == left[14..18] == c;
  }

  lemma HexBytesSplit(u: seq<u8>, i: nat, j: nat)
    requires i <= j <= |u|
    ensures HexBytes(u[0..i]) + HexBytes(u[i..j]) == HexBytes(u[0..j])
  {
    HexBytesConcat(u[0..i], u[i..j]);
    assert u[0..i] + u[i..j] == u[0..j];
  }

  lemma GroupsTogether(u: seq<u8>)
    requires |u| == 16
    ensures HexBytes(u[0..4]) + HexBytes(u[4..6]) + HexBytes(u[6..8]) + HexBytes(u[8..10]) + HexBytes(u[10..16])
            == HexBytes(u)
  {
    HexBytesSplit(u, 4, 6);
    HexBytesSplit(u, 6, 8);
    HexBytesSplit(u, 8, 10);
    HexBytesSplit(u, 10, 16);
    assert u[0..16] == u;
  }

  /** Every UUID can be read back from its id. */
  lemma ParseInverts(u: seq<u8>)
    requires |u| == 16
    ensures ParseUUID(UUIDToString(u)) == u
  {
    Layout(u);
    CutGroups(UUIDToString(u), HexBytes(u[0..4]), HexBytes(u[4..6]), HexBytes(u[6..8]),
              HexBytes(u[8..10]), HexBytes(u[10..16]));
    GroupsTogether(u);
    BytesBack(u);
  }

  lemma IDsDiffer(u: seq<u8>, v: seq<u8>)
    requires |u| == |v| == 16 && u != v
    ensures UUIDToString(u) != UUIDToString(v) && UUIDToString(u) != ""
  {
    ParseInverts(u);
    ParseInverts(v);
    Layout(u);
  }

  /** So different domains never share an entry of the inventory, and none is dropped. */
  lemma DomainsDoNotCollide(m: Inventory, uuids: seq<seq<u8>>, infos: seq<VMInfo>)
    requires |uuids| == |infos| && IsInventoryOf(m, infos)
    requires forall i :: 0 <= i < |uuids| ==> |uuids[i]| == 16 && infos[i].vmID == UUIDToString(uuids[i])
    requires forall i, j :: 0 <= i < j < |uuids| ==> uuids[i] != uuids[j]
    ensures forall i :: 0 <= i < |infos| ==> Get(m, infos[i].vmID) == Some(infos[i])
    ensures forall id :: id in m ==> m[id] in infos
  {
    InventoryOfList(m, infos);
    forall i | 0 <= i < |infos|
      ensures infos[i].vmID != ""
    {
      Layout(uuids[i]);
    }
    forall i, j | 0 <= i < j < |infos|
      ensures infos[j].vmID != infos[i].vmID
    {
      IDsDiffer(uuids[i], uuids[j]);
    }
  }
}
