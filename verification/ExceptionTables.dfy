/** LEB128 numbers, the chain of actions of a call site, and the two phases of handling an exception. */
module ExceptionTables {
  import opened Wrappers

  type Byte = b: int | 0 <= b < 256

  // ----- Encodings (section 7.6 of the DWARF 3 standard) -----

  function EncodeU(x: nat): seq<Byte> {
    if x < 128 then [x] else [x % 128 + 128] + EncodeU(x / 128)
  }

  function Magnitude(x: int): nat { if x < 0 then -x - 1 else x }

  function EncodeS(x: int): seq<Byte>
    decreases Magnitude(x)
  {
    var low, high := x % 128, x / 128;
    if (high == 0 && low < 64) || (high == -1 && low >= 64) then [low] else [low + 128] + EncodeS(high)
  }

  // ----- What an encoding stands for -----

  /** Some byte at or after p has its top bit clear. */
  predicate Ends(data: seq<Byte>, p: int)
    requires 0 <= p
    decreases |data| - p
  {
    p < |data| && (data[p] < 128 || Ends(data, p + 1))
  }

  function Length(data: seq<Byte>, p: int): (n: nat)
    requires 0 <= p && Ends(data, p)
    ensures 1 <= n <= |data| - p
    decreases |data| - p
  {
    if data[p] < 128 then 1 else 1 + Length(data, p + 1)
  }

  function ValueU(data: seq<Byte>, p: int): nat
    requires 0 <= p && Ends(data, p)
    decreases |data| - p
  {
    if data[p] < 128 then data[p] else data[p] - 128 + 128 * ValueU(data, p + 1)
  }

  /** Two's complement: the second highest bit of the last byte is the sign. */
  function ValueS(data: seq<Byte>, p: int): int
    requires 0 <= p && Ends(data, p)
    decreases |data| - p
  {
    if data[p] < 64 then data[p] else if data[p] < 128 then data[p] - 128 else data[p] - 128 + 128 * ValueS(data, p + 1)
  }

  lemma {:induction false} EncodeURoundTrip(x: nat, data: seq<Byte>, p: int, rest: seq<Byte>)
    requires 0 <= p <= |data| && data[p..] == EncodeU(x) + rest
    ensures Ends(data, p) && ValueU(data, p) == x && Length(data, p) == |EncodeU(x)|
    decreases x
  {
    assert data[p] == data[p..][0];
    if x >= 128 {
      assert data[p + 1..] == data[p..][1..] == EncodeU(x / 128) + rest;
      EncodeURoundTrip(x / 128, data, p + 1, rest);
    }
  }

  lemma {:induction false} EncodeSRoundTrip(x: int, data: seq<Byte>, p: int, rest: seq<Byte>)
    requires 0 <= p <= |data| && data[p..] == EncodeS(x) + rest
    ensures Ends(data, p) && ValueS(data, p) == x && Length(data, p) == |EncodeS(x)|
    decreases Magnitude(x)
  {
    var low, high := x % 128, x / 128;
    assert data[p] == data[p..][0];
    if !((high == 0 && low < 64) || (high == -1 && low >= 64)) {
      assert data[p + 1..] == data[p..][1..] == EncodeS(high) + rest;
      EncodeSRoundTrip(high, data, p + 1, rest);
    }
  }

  /** The examples of section 7.6 of the standard. */
  lemma LebExamples()
    ensures EncodeU(2) == [2] && EncodeU(127) == [127] && EncodeU(128) == [0x80, 1] && EncodeU(129) == [0x81, 1]
    ensures EncodeU(12857) == [57 + 0x80, 100]
    ensures EncodeS(2) == [2] && EncodeS(-2) == [0x7e] && EncodeS(127) == [127 + 0x80, 0] && EncodeS(-127) == [1 + 0x80, 0x7f]
    ensures EncodeS(128) == [0x80, 1] && EncodeS(-128) == [0x80, 0x7f] && EncodeS(129) == [1 + 0x80, 1]
    ensures EncodeS(-129) == [0x7f + 0x80, 0x7e]
  {
    assert EncodeU(12857) == [57 + 0x80] + EncodeU(100);
    assert EncodeS(127) == [127 + 0x80] + EncodeS(0) && EncodeS(-127) == [1 + 0x80] + EncodeS(-1);
    assert EncodeS(128) == [0x80] + EncodeS(1) && EncodeS(-128) == [0x80] + EncodeS(-1);
    assert EncodeS(129) == [1 + 0x80] + EncodeS(1) && EncodeS(-129) == [0x7f + 0x80] + EncodeS(-2);
  }

  // ----- Reading -----

  /** What a one of the next byte counts after n bytes. */
  function Place(n: int): int {
    if n == 0 then 1 else if n == 1 then 0x80 else if n == 2 then 0x4000 else if n == 3 then 0x20_0000
    else if n == 4 then 0x1000_0000 else 0x8_0000_0000
  }

  lemma PlaceStep(n: int, byte: int, v: int)
    requires 0 <= n <= 4
    ensures (byte + 128 * v) * Place(n) == byte * Place(n) + v * Place(n + 1)
  {
  }

  /** The bytes are shifted as 32-bit ints: a sixth byte would be shifted by the whole width, and
      a fifth one of 8 or more into the sign. */
  predicate Readable(data: seq<Byte>, p: int) {
    0 <= p && Ends(data, p) && Length(data, p) <= 5 && (Length(data, p) == 5 ==> data[p + 4] < 8)
  }

  /** The length of an encoding, and its last byte. */
  lemma {:induction false} EncodeUEnds(x: nat, n: nat)
    requires 1 <= n <= 5
    ensures |EncodeU(x)| <= n <==> x < Place(n)
    ensures |EncodeU(x)| == n ==> EncodeU(x)[n - 1] == x / Place(n - 1)
  {
    if x >= 128 && n > 1 {
      EncodeUEnds(x / 128, n - 1);
      DivTwice(x, n - 1);
    }
  }

  lemma {:induction false} EncodeSEnds(y: int, n: nat)
    requires 1 <= n <= 5
    ensures |EncodeS(y)| <= n <==> -Place(n) <= 2 * y < Place(n)
    ensures |EncodeS(y)| == n ==> EncodeS(y)[n - 1] == y / Place(n - 1) % 128
    decreases n
  {
    if !(-64 <= y < 64) && n > 1 {
      EncodeSEnds(y / 128, n - 1);
      DivTwice(y, n - 1);
    }
  }

  lemma DivTwice(x: int, n: int)
    requires 1 <= n <= 4
    ensures x / 128 / Place(n - 1) == x / Place(n)
  {
  }

  /** Exactly the numbers below 2^31 can be read back. */
  lemma ReadableU(x: nat, data: seq<Byte>, p: int, rest: seq<Byte>)
    requires 0 <= p <= |data| && data[p..] == EncodeU(x) + rest
    ensures Readable(data, p) <==> x < 0x8000_0000
  {
    EncodeURoundTrip(x, data, p, rest);
    EncodeUEnds(x, 5);
    EncodeUEnds(x, 4);
    if |EncodeU(x)| == 5 {
      assert data[p + 4] == data[p..][4] == EncodeU(x)[4];
    }
  }

  /** Exactly the numbers from -2^27 up to 2^31 can be: the sign would be lost in a fifth byte. */
  lemma ReadableS(y: int, data: seq<Byte>, p: int, rest: seq<Byte>)
    requires 0 <= p <= |data| && data[p..] == EncodeS(y) + rest
    ensures Readable(data, p) <==> -0x800_0000 <= y < 0x8000_0000
  {
    EncodeSRoundTrip(y, data, p, rest);
    EncodeSEnds(y, 5);
    EncodeSEnds(y, 4);
    if |EncodeS(y)| == 5 {
      assert data[p + 4] == data[p..][4] == EncodeS(y)[4];
    }
  }

  method ReadULEB128(data: seq<Byte>, p: int) returns (result: int, next: int)
    requires Readable(data, p)
    ensures result == ValueU(data, p) && next == p + Length(data, p)
  {
    result, next := 0, p;
    var n := 0;
    while true
      invariant 0 <= n <= 4 && next == p + n && Ends(data, next) && n + Length(data, next) == Length(data, p)
      invariant result + ValueU(data, next) * Place(n) == ValueU(data, p)
      decreases |data| - next
    {
      var byte := data[next];
      next := next + 1;
      // The bits of the bytes do not overlap.
      if byte >= 128 {
        PlaceStep(n, byte - 128, ValueU(data, next));
      }
      result := result + byte % 128 * Place(n);
      n := n + 1;
      if byte < 128 {
        break;
      }
    }
  }

  method ReadSLEB128(data: seq<Byte>, p: int) returns (result: int, next: int)
    requires Readable(data, p)
    ensures result == ValueS(data, p) && next == p + Length(data, p)
  {
    result, next := 0, p;
    var n := 0;
    while true
      invariant 0 <= n <= 4 && next == p + n && Ends(data, next) && n + Length(data, next) == Length(data, p)
      invariant result + ValueS(data, next) * Place(n) == ValueS(data, p)
      decreases |data| - next
    {
      var byte := data[next];
      next := next + 1;
      if byte >= 128 {
        PlaceStep(n, byte - 128, ValueS(data, next));
      }
      result := result + byte % 128 * Place(n);
      n := n + 1;
      if byte < 128 {
        // Fill up with ones from the sign bit on.
        if byte >= 64 {
          result := result - Place(n);
        }
        break;
      }
    }
  }

  // ----- The action chain -----

  /** A finite chain of actions starts at pos, with these type offsets; none is a filter. */
  ghost predicate ChainAt(data: seq<Byte>, pos: int, chain: seq<int>)
    decreases |chain|
  {
    && chain != [] && Readable(data, pos) && ValueS(data, pos) == chain[0] >= 0
    && var q := pos + Length(data, pos);
       && Readable(data, q)
       && (ValueS(data, q) == 0 <==> |chain| == 1)
       && (|chain| > 1 ==> ChainAt(data, q + ValueS(data, q), chain[1..]))
  }

  /** The i-th action catches exceptions of the type. */
  predicate Catches(chain: seq<int>, typeAt: int -> int, typ: int, i: int)
    requires 0 <= i < |chain|
  {
    chain[i] > 0 && typeAt(chain[i]) == typ
  }

  /** The position of the first action that catches, counted from 1; 0 if there is none. */
  function FirstMatch(chain: seq<int>, typeAt: int -> int, typ: int): (r: nat)
    ensures r <= |chain|
    ensures r > 0 ==> Catches(chain, typeAt, typ, r - 1)
    ensures forall i | 0 <= i < |chain| && (r == 0 || i < r - 1) :: !Catches(chain, typeAt, typ, i)
  {
    if chain == [] then 0
    else if Catches(chain, typeAt, typ, 0) then 1
    else
      var r := FirstMatch(chain[1..], typeAt, typ);
      assert forall i | 0 < i < |chain| :: Catches(chain, typeAt, typ, i) == Catches(chain[1..], typeAt, typ, i - 1);
      if r == 0 then 0 else r + 1
  }

  /** Action r, counted from 1, is the first that catches. */
  ghost predicate FirstCatches(chain: seq<int>, typeAt: int -> int, typ: int, r: int) {
    && 1 <= r <= |chain| && chain[r - 1] > 0 && typeAt(chain[r - 1]) == typ
    && forall i | 0 <= i < r - 1 :: !(chain[i] > 0 && typeAt(chain[i]) == typ)
  }

  lemma FirstMatchCatches(chain: seq<int>, typeAt: int -> int, typ: int)
    ensures FirstMatch(chain, typeAt, typ) > 0 <==> exists i :: 0 <= i < |chain| && chain[i] > 0 && typeAt(chain[i]) == typ
    ensures FirstMatch(chain, typeAt, typ) > 0 ==> FirstCatches(chain, typeAt, typ, FirstMatch(chain, typeAt, typ))
  {
    var r := FirstMatch(chain, typeAt, typ);
    if i :| 0 <= i < |chain| && chain[i] > 0 && typeAt(chain[i]) == typ {
      assert Catches(chain, typeAt, typ, i);
    }
    if r > 0 {
      forall i | 0 <= i < r - 1 ensures !(chain[i] > 0 && typeAt(chain[i]) == typ) {
        assert !Catches(chain, typeAt, typ, i);
      }
    }
  }

  method HandleActionValue(data: seq<Byte>, actionEntry: int, typeAt: int -> int, typ: int, ours: bool, ghost chain: seq<int>)
    returns (ret: bool, resultAction: int)
    requires ChainAt(data, actionEntry, chain)
    ensures ret <==> ours && FirstMatch(chain, typeAt, typ) > 0
    ensures ret ==> resultAction == FirstMatch(chain, typeAt, typ)
    ensures ret <==> ours && exists i :: 0 <= i < |chain| && chain[i] > 0 && typeAt(chain[i]) == typ
    ensures ret ==> FirstCatches(chain, typeAt, typ, resultAction)
  {
    hide FirstCatches;
    FirstMatchCatches(chain, typeAt, typ);
    ret, resultAction := false, 0;
    if !ours {
      return;
    }
    var actionPos := actionEntry;
    ghost var rest := chain;
    var i := 0;
    while true
      invariant ChainAt(data, actionPos, rest) && i + |rest| == |chain|
      invariant FirstMatch(chain, typeAt, typ) == var r := FirstMatch(rest, typeAt, typ); if r == 0 then 0 else r + i
      decreases |rest|
    {
      var typeOffset, actionOffset, next;
      typeOffset, actionPos := ReadSLEB128(data, actionPos);
      actionOffset, next := ReadSLEB128(data, actionPos);
      assert typeOffset >= 0;
      if typeOffset > 0 && typeAt(typeOffset) == typ {
        return true, i + 1;
      }
      if actionOffset == 0 {
        break;
      }
      actionPos := actionPos + actionOffset;
      rest := rest[1..];
      i := i + 1;
    }
  }

  // ----- The two phases -----

  datatype CallSite = CallSite(start: int, length: int, landingPad: int, action: nat)

  datatype ReasonCode = ContinueUnwind | HandlerFound | InstallContext

  /** Where execution goes on, and the selector handed to the landing pad. */
  datatype Context = Context(selector: int, landingPad: int)

  /** The end of the range is computed in 64 bits. */
  predicate Covers(s: CallSite, pcOffset: int) {
    s.landingPad != 0 && s.start <= pcOffset < (s.start + s.length) % 0x1_0000_0000_0000_0000
  }

  /** The first call site with a landing pad whose range includes the pc. */
  function SiteFor(sites: seq<CallSite>, pcOffset: int): Option<CallSite> {
    if sites == [] then None
    else if Covers(sites[0], pcOffset) then Some(sites[0]) else SiteFor(sites[1..], pcOffset)
  }

  ghost predicate FirstCovering(sites: seq<CallSite>, pcOffset: int, k: int) {
    0 <= k < |sites| && Covers(sites[k], pcOffset) && forall j | 0 <= j < k :: !Covers(sites[j], pcOffset)
  }

  lemma {:induction false} SiteForIsFirst(sites: seq<CallSite>, pcOffset: int)
    ensures SiteFor(sites, pcOffset).None? ==> forall k | 0 <= k < |sites| :: !Covers(sites[k], pcOffset)
    ensures SiteFor(sites, pcOffset).Some? ==>
              exists k :: FirstCovering(sites, pcOffset, k) && sites[k] == SiteFor(sites, pcOffset).value
  {
    if sites != [] && !Covers(sites[0], pcOffset) {
      SiteForIsFirst(sites[1..], pcOffset);
      assert forall k | 0 < k < |sites| :: sites[k] == sites[1..][k - 1];
      if SiteFor(sites, pcOffset).Some? {
        var k :| FirstCovering(sites[1..], pcOffset, k) && sites[1..][k] == SiteFor(sites, pcOffset).value;
        assert FirstCovering(sites, pcOffset, k + 1);
      }
    } else if sites != [] {
      assert FirstCovering(sites, pcOffset, 0);
    }
  }

  /** The selector of a site: its first matching action, or 0 for cleanups only. */
  ghost function Selector(s: CallSite, chains: int -> seq<int>, typeAt: int -> int, typ: int, ours: bool): int {
    if ours && s.action > 0 then FirstMatch(chains(s.action), typeAt, typ) else 0
  }

  /** What each phase does at the site found. */
  ghost predicate Outcome(sites: seq<CallSite>, pcOffset: int, chains: int -> seq<int>, typeAt: int -> int, typ: int,
                          ours: bool, search: bool, ret: ReasonCode, installed: Option<Context>)
  {
    var site := SiteFor(sites, pcOffset);
    if site.None? then ret == ContinueUnwind && installed == None
    else
      var selector := Selector(site.value, chains, typeAt, typ, ours);
      if search then ret == (if selector > 0 then HandlerFound else ContinueUnwind) && installed == None
      else ret == InstallContext && installed == Some(Context(selector, site.value.landingPad))
  }

  /** The pc is in the range of a site with a landing pad; a range that runs over the end of the
      64-bit numbers ends where its wrapped end is. */
  predicate PcInside(s: CallSite, pcOffset: int) {
    && s.landingPad != 0 && s.start <= pcOffset
    && pcOffset < (if s.start + s.length <= MAX64 then s.start + s.length else s.start + s.length - MAX64 - 1)
  }

  const MAX64: int := 0xffff_ffff_ffff_ffff

  ghost predicate FirstInside(sites: seq<CallSite>, pcOffset: int, k: int) {
    0 <= k < |sites| && PcInside(sites[k], pcOffset) && forall j | 0 <= j < k :: !PcInside(sites[j], pcOffset)
  }

  /** Some action catches our exception at the site. */
  ghost predicate Caught(s: CallSite, chain: seq<int>, typeAt: int -> int, typ: int, ours: bool) {
    ours && s.action > 0 && exists i :: 0 <= i < |chain| && chain[i] > 0 && typeAt(chain[i]) == typ
  }

  /** The first site around the pc decides what each phase does: search for an action that
      catches, or enter the landing pad with the position of the first one, 0 for a cleanup. */
  lemma FirstSiteDecides(sites: seq<CallSite>, pcOffset: int, chains: int -> seq<int>, typeAt: int -> int, typ: int,
                         ours: bool, search: bool, ret: ReasonCode, installed: Option<Context>)
    requires forall k | 0 <= k < |sites| :: 0 <= sites[k].start <= MAX64 && 0 <= sites[k].length <= MAX64
    requires Outcome(sites, pcOffset, chains, typeAt, typ, ours, search, ret, installed)
    ensures (forall k | 0 <= k < |sites| :: !PcInside(sites[k], pcOffset)) ==> ret == ContinueUnwind && installed == None
    ensures forall k | FirstInside(sites, pcOffset, k) ::
      var s := sites[k];
      var caught := Caught(s, chains(s.action), typeAt, typ, ours);
      if search then ret == (if caught then HandlerFound else ContinueUnwind) && installed == None
      else ret == InstallContext && installed.Some? && installed.value.landingPad == s.landingPad
           && (if caught then FirstCatches(chains(s.action), typeAt, typ, installed.value.selector) else installed.value.selector == 0)
  {
    SiteForIsFirst(sites, pcOffset);
    forall k | 0 <= k < |sites| ensures Covers(sites[k], pcOffset) <==> PcInside(sites[k], pcOffset) {
    }
    forall k | FirstInside(sites, pcOffset, k) ensures SiteFor(sites, pcOffset) == Some(sites[k]) {
      var j :| FirstCovering(sites, pcOffset, j) && sites[j] == SiteFor(sites, pcOffset).value;
      assert j == k;
    }
    forall chain: seq<int> ensures FirstMatch(chain, typeAt, typ) > 0 <==> exists i :: 0 <= i < |chain| && chain[i] > 0 && typeAt(chain[i]) == typ {
      FirstMatchCatches(chain, typeAt, typ);
    }
    forall chain: seq<int> | FirstMatch(chain, typeAt, typ) > 0 ensures FirstCatches(chain, typeAt, typ, FirstMatch(chain, typeAt, typ)) {
      FirstMatchCatches(chain, typeAt, typ);
    }
  }

  // ----- Tables in memory -----

  const OMIT: Byte := 0xff
  const ULEB128: Byte := 0x01

  /** The width of a fixed-size field; 0 for encodings that are not modelled. */
  function Width(enc: Byte): nat {
    match enc
    case 0x00 => 8
    case 0x02 => 2
    case 0x03 => 4
    case 0x04 => 8
    case _ => 0
  }

  function LittleEndian(data: seq<Byte>, p: nat, n: nat): nat
    requires p + n <= |data|
    decreases n
  {
    if n == 0 then 0 else data[p] + 256 * LittleEndian(data, p + 1, n - 1)
  }

  predicate FieldOk(data: seq<Byte>, p: int, enc: Byte) {
    if enc == ULEB128 then Readable(data, p)
    else Width(enc) > 0 && 0 <= p && p + Width(enc) <= |data|
  }

  function FieldValue(data: seq<Byte>, p: int, enc: Byte): nat
    requires FieldOk(data, p, enc)
  {
    if enc == ULEB128 then ValueU(data, p) else LittleEndian(data, p, Width(enc))
  }

  function FieldEnd(data: seq<Byte>, p: int, enc: Byte): (q: int)
    requires FieldOk(data, p, enc)
    ensures p < q
  {
    if enc == ULEB128 then p + Length(data, p) else p + Width(enc)
  }

  /** An absolute value in the given encoding. */
  method ReadEncodedPointer(data: seq<Byte>, p: int, enc: Byte) returns (result: int, next: int)
    requires FieldOk(data, p, enc)
    ensures result == FieldValue(data, p, enc) && next == FieldEnd(data, p, enc)
  {
    if enc == ULEB128 {
      result, next := ReadULEB128(data, p);
    } else {
      result, next := LittleEndian(data, p, Width(enc)), p + Width(enc);
    }
  }

  /** The header: an optional landing pad base, an optional type table offset, and the encoding
      and the bounds of the call-site table, behind which the actions lie. */
  datatype Header = Header(enc: Byte, tableStart: int, tableEnd: int)

  ghost predicate HeaderAt(data: seq<Byte>, lsda: int, h: Header) {
    && 0 <= lsda < |data| && (data[lsda] != OMIT ==> FieldOk(data, lsda + 1, data[lsda]))
    && var p := if data[lsda] == OMIT then lsda + 1 else FieldEnd(data, lsda + 1, data[lsda]);
    && p < |data| && (data[p] != OMIT ==> Readable(data, p + 1))
    && var q := if data[p] == OMIT then p + 1 else p + 1 + Length(data, p + 1);
    && q < |data| && h.enc == data[q] && Readable(data, q + 1)
    && h.tableStart == q + 1 + Length(data, q + 1) && h.tableEnd == h.tableStart + ValueU(data, q + 1)
  }

  /** The fields of a call site, one after the other. */
  ghost predicate SiteAt(data: seq<Byte>, p: int, enc: Byte, s: CallSite, next: int) {
    && FieldOk(data, p, enc) && FieldValue(data, p, enc) == s.start
    && var p1 := FieldEnd(data, p, enc);
    && FieldOk(data, p1, enc) && FieldValue(data, p1, enc) == s.length
    && var p2 := FieldEnd(data, p1, enc);
    && FieldOk(data, p2, enc) && FieldValue(data, p2, enc) == s.landingPad
    && var p3 := FieldEnd(data, p2, enc);
    Readable(data, p3) && ValueU(data, p3) == s.action && next == p3 + Length(data, p3)
  }

  /** The call sites from p to the end of the table. */
  ghost predicate TableAt(data: seq<Byte>, p: int, end: int, enc: Byte, sites: seq<CallSite>)
    decreases |sites|
  {
    if sites == [] then p >= end
    else p < end && exists next :: SiteAt(data, p, enc, sites[0], next) && TableAt(data, next, end, enc, sites[1..])
  }

  predicate Fits(s: CallSite) {
    && 0 <= s.start < 0x8000_0000 && 0 <= s.length < 0x8000_0000
    && 0 <= s.landingPad < 0x8000_0000 && s.action < 0x8000_0000
  }

  function EncodeSite(s: CallSite): seq<Byte>
    requires Fits(s)
  {
    EncodeU(s.start) + EncodeU(s.length) + EncodeU(s.landingPad) + EncodeU(s.action)
  }

  function EncodeTable(sites: seq<CallSite>): seq<Byte>
    requires forall s | s in sites :: Fits(s)
  {
    if sites == [] then [] else EncodeSite(sites[0]) + EncodeTable(sites[1..])
  }

  /** One encoded number in front of the rest. */
  lemma FieldRoundTrip(x: nat, data: seq<Byte>, p: int, rest: seq<Byte>)
    requires 0 <= p <= |data| && data[p..] == EncodeU(x) + rest && x < 0x8000_0000
    ensures Readable(data, p) && FieldOk(data, p, ULEB128) && FieldValue(data, p, ULEB128) == x == ValueU(data, p)
    ensures FieldEnd(data, p, ULEB128) == p + Length(data, p) == p + |EncodeU(x)| <= |data|
    ensures data[p + |EncodeU(x)|..] == rest
  {
    ReadableU(x, data, p, rest);
    EncodeURoundTrip(x, data, p, rest);
    assert data[p + |EncodeU(x)|..] == data[p..][|EncodeU(x)|..];
  }

  lemma Regroup(a: seq<Byte>, b: seq<Byte>, c: seq<Byte>, d: seq<Byte>, e: seq<Byte>)
    ensures a + b + c + d + e == a + (b + (c + (d + e)))
  {
  }

  lemma SiteRoundTrip(s: CallSite, data: seq<Byte>, p: int, rest: seq<Byte>)
    requires Fits(s) && 0 <= p <= |data| && data[p..] == EncodeSite(s) + rest
    ensures SiteAt(data, p, ULEB128, s, p + |EncodeSite(s)|)
    ensures p < p + |EncodeSite(s)| <= |data| && data[p + |EncodeSite(s)|..] == rest
  {
    hide EncodeU, FieldOk, FieldValue, FieldEnd, Readable, ValueU, Length;
    var a, b, c, d := EncodeU(s.start), EncodeU(s.length), EncodeU(s.landingPad), EncodeU(s.action);
    var behindA := b + (c + (d + rest));
    Regroup(a, b, c, d, rest);
    FieldRoundTrip(s.start, data, p, behindA);
    FieldRoundTrip(s.length, data, p + |a|, c + (d + rest));
    FieldRoundTrip(s.landingPad, data, p + |a| + |b|, d + rest);
    FieldRoundTrip(s.action, data, p + |a| + |b| + |c|, rest);
  }

  /** A printed call-site table is read back as its sites. */
  lemma {:induction false} TableRoundTrip(sites: seq<CallSite>, data: seq<Byte>, p: int, rest: seq<Byte>)
    requires forall s | s in sites :: Fits(s)
    requires 0 <= p <= |data| && data[p..] == EncodeTable(sites) + rest
    ensures TableAt(data, p, p + |EncodeTable(sites)|, ULEB128, sites)
    decreases |sites|
  {
    hide SiteAt, EncodeSite;
    if sites != [] {
      var front, back := EncodeSite(sites[0]), EncodeTable(sites[1..]);
      assert data[p..] == front + (back + rest);
      SiteRoundTrip(sites[0], data, p, back + rest);
      TableRoundTrip(sites[1..], data, p + |front|, rest);
    }
  }

  /** A table without landing pad base and types, byte by byte: its header, and one call site. */
  lemma TableExample()
    ensures HeaderAt([0xff, 0xff, 1, 4, 10, 20, 30, 1], 0, Header(1, 4, 8))
    ensures TableAt([0xff, 0xff, 1, 4, 10, 20, 30, 1], 4, 8, 1, [CallSite(10, 20, 30, 1)])
    ensures FieldOk([0x78, 0x56, 0x34, 0x12], 0, 3) && FieldValue([0x78, 0x56, 0x34, 0x12], 0, 3) == 0x1234_5678
  {
    var data: seq<Byte> := [0xff, 0xff, 1, 4, 10, 20, 30, 1];
    assert SiteAt(data, 4, 1, CallSite(10, 20, 30, 1), 8);
    assert TableAt(data, 8, 8, 1, []);
    assert [CallSite(10, 20, 30, 1)][1..] == [];
    var word: seq<Byte> := [0x78, 0x56, 0x34, 0x12];
    assert LittleEndian(word, 3, 1) == 0x12 && LittleEndian(word, 2, 2) == 0x1234;
    assert LittleEndian(word, 1, 3) == 0x12_3456;
  }

  /** Parse the header. */
  method ReadHeader(data: seq<Byte>, lsda: int, ghost h: Header) returns (enc: Byte, tableStart: int, tableEnd: int)
    requires HeaderAt(data, lsda, h)
    ensures h == Header(enc, tableStart, tableEnd)
  {
    var lpStartEncoding := data[lsda];
    var p := lsda + 1;
    if lpStartEncoding != OMIT {
      var lpStart;
      lpStart, p := ReadEncodedPointer(data, p, lpStartEncoding);
    }
    var ttypeEncoding := data[p];
    p := p + 1;
    if ttypeEncoding != OMIT {
      var classInfoOffset;
      classInfoOffset, p := ReadULEB128(data, p);
    }
    enc := data[p];
    var tableLength;
    tableLength, tableStart := ReadULEB128(data, p + 1);
    tableEnd := tableStart + tableLength;
  }

  /** Parse one call site. */
  method ReadSite(data: seq<Byte>, p: int, enc: Byte, ghost s: CallSite, ghost end: int)
    returns (start: int, length: int, landingPad: int, action: nat, next: int)
    requires SiteAt(data, p, enc, s, end)
    ensures CallSite(start, length, landingPad, action) == s && next == end
  {
    start, next := ReadEncodedPointer(data, p, enc);
    length, next := ReadEncodedPointer(data, next, enc);
    landingPad, next := ReadEncodedPointer(data, next, enc);
    action, next := ReadULEB128(data, next);
  }

  method HandleLsda(data: seq<Byte>, lsda: int, pcOffset: int, typeAt: int -> int, typ: int, ours: bool, search: bool,
                    ghost h: Header, ghost sites: seq<CallSite>, ghost chains: int -> seq<int>)
    returns (ret: ReasonCode, installed: Option<Context>)
    requires HeaderAt(data, lsda, h) && TableAt(data, h.tableStart, h.tableEnd, h.enc, sites)
    requires forall k | 0 <= k < |sites| && sites[k].action > 0 ::
               ChainAt(data, h.tableEnd + sites[k].action - 1, chains(sites[k].action))
    ensures Outcome(sites, pcOffset, chains, typeAt, typ, ours, search, ret, installed)
  {
    hide HeaderAt, SiteAt, ChainAt;
    ret, installed := ContinueUnwind, None;
    var callSiteEncoding, callSitePtr, callSiteTableEnd := ReadHeader(data, lsda, h);
    var actionTableStart := callSiteTableEnd;
    ghost var rest := sites;
    while callSitePtr < callSiteTableEnd
      invariant TableAt(data, callSitePtr, callSiteTableEnd, callSiteEncoding, rest)
      invariant forall s | s in rest :: s in sites
      invariant SiteFor(rest, pcOffset) == SiteFor(sites, pcOffset)
      invariant ret == ContinueUnwind && installed == None
      decreases |rest|
    {
      ghost var site, end := rest[0], SiteEnd(data, callSitePtr, callSiteTableEnd, callSiteEncoding, rest);
      var start, length, landingPad, actionEntry;
      start, length, landingPad, actionEntry, callSitePtr := ReadSite(data, callSitePtr, callSiteEncoding, site, end);
      assert site in rest;
      rest := rest[1..];
      // A foreign exception only runs cleanups.
      if !ours {
        actionEntry := 0;
      }
      if landingPad == 0 {
        continue;
      }
      var hasAction := actionEntry > 0;
      if hasAction {
        actionEntry := actionEntry + actionTableStart - 1;
      }
      if start <= pcOffset && pcOffset < (start + length) % 0x1_0000_0000_0000_0000 {
        var exceptionMatched, actionValue := false, 0;
        if hasAction {
          exceptionMatched, actionValue := HandleActionValue(data, actionEntry, typeAt, typ, ours, chains(site.action));
        }
        if !search {
          var selector := if !hasAction || !exceptionMatched then 0 else actionValue;
          installed := Some(Context(selector, landingPad));
          ret := InstallContext;
        } else if exceptionMatched {
          ret := HandlerFound;
        }
        return;
      }
    }
  }

  ghost function SiteEnd(data: seq<Byte>, p: int, end: int, enc: Byte, sites: seq<CallSite>): (next: int)
    requires p < end && TableAt(data, p, end, enc, sites)
    ensures sites != [] && SiteAt(data, p, enc, sites[0], next) && TableAt(data, next, end, enc, sites[1..])
  {
    var next :| SiteAt(data, p, enc, sites[0], next) && TableAt(data, next, end, enc, sites[1..]);
    next
  }

  /** The context enters the landing pad of the first site that covers the pc, with the position
      of an action that catches the exception. */
  ghost predicate CaughtAt(sites: seq<CallSite>, pcOffset: int, k: int, chains: int -> seq<int>, typeAt: int -> int,
                           typ: int, c: Context)
  {
    && FirstCovering(sites, pcOffset, k) && c.landingPad == sites[k].landingPad
    && 1 <= c.selector <= |chains(sites[k].action)|
    && Catches(chains(sites[k].action), typeAt, typ, c.selector - 1)
  }

  /** The search phase reports a handler exactly when the later phase, on the same tables,
      installs a context whose selector says which action matched. */
  lemma PhasesAgree(sites: seq<CallSite>, pcOffset: int, chains: int -> seq<int>, typeAt: int -> int, typ: int, ours: bool,
                    found: ReasonCode, none: Option<Context>, ret: ReasonCode, installed: Option<Context>)
    requires Outcome(sites, pcOffset, chains, typeAt, typ, ours, true, found, none)
    requires Outcome(sites, pcOffset, chains, typeAt, typ, ours, false, ret, installed)
    ensures found == HandlerFound <==> installed.Some? && installed.value.selector != 0
    ensures found == HandlerFound ==> ret == InstallContext
    ensures found == HandlerFound ==> exists k :: CaughtAt(sites, pcOffset, k, chains, typeAt, typ, installed.value)
  {
    SiteForIsFirst(sites, pcOffset);
    if found == HandlerFound {
      var k :| FirstCovering(sites, pcOffset, k) && sites[k] == SiteFor(sites, pcOffset).value;
      assert CaughtAt(sites, pcOffset, k, chains, typeAt, typ, installed.value);
    }
  }
}
