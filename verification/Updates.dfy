/**
 * crates/update-verify/src/lib.rs: the version order that guards against downgrades, and the
 * ordered checks a signed bundle goes through.
 *
 * Signature verification, hex decoding and metadata parsing are arguments.
 */
module Updates {
  import opened Bits
  import opened Outcomes

  type Version = seq<nat>

  // ---------------------------------------------------------------------------
  // Parsing

  predicate IsDigit(c: char) {
    '0' <= c <= '9'
  }

  predicate AllDigits(s: string) {
    forall i :: 0 <= i < |s| ==> IsDigit(s[i])
  }

  function DigitsValue(s: string): nat
    requires AllDigits(s)
  {
    if s == [] then 0
    else
      var last := s[|s| - 1];
      assert IsDigit(last);
      10 * DigitsValue(s[..|s| - 1]) + (last as int - '0' as int)
  }

  /** `str::parse::<u32>`: digits, possibly after a plus sign, below 2^32. */
  function ParseU32(s: string): Option<nat> {
    var digits := if |s| > 0 && s[0] == '+' then s[1..] else s;
    if digits == [] || !AllDigits(digits) then None
    else if DigitsValue(digits) >= TWO_TO_THE_32 then None
    else Some(DigitsValue(digits))
  }

  /** `split('.')`; there is always at least one part. */
  function SplitDots(s: string): (r: seq<string>)
    ensures |r| > 0
  {
    if s == [] then [[]]
    else
      var rest := SplitDots(s[1..]);
      if s[0] == '.' then [[]] + rest else [[s[0]] + rest[0]] + rest[1..]
  }

  /** `filter_map`: parts that are not numbers are dropped. */
  function Numbers(parts: seq<string>): Version {
    if parts == [] then []
    else
      match ParseU32(parts[0])
      case Some(n) => [n] + Numbers(parts[1..])
      case None => Numbers(parts[1..])
  }

  function Parse(s: string): Version {
    Numbers(SplitDots(s))
  }

  // ---------------------------------------------------------------------------
  // Parsing against printing

  function Digit(d: nat): char
    requires d < 10
  {
    ('0' as int + d) as char
  }

  function Decimal(n: nat): (s: string)
    ensures s != []
  {
    if n < 10 then [Digit(n)] else Decimal(n / 10) + [Digit(n % 10)]
  }

  function Zeros(k: nat): string {
    seq(k, _ => '0')
  }

  /** A digit more. */
  lemma DigitsSnoc(s: string, d: nat)
    requires AllDigits(s) && d < 10
    ensures AllDigits(s + [Digit(d)]) && DigitsValue(s + [Digit(d)]) == 10 * DigitsValue(s) + d
  {
    assert (s + [Digit(d)])[..|s|] == s;
  }

  lemma {:induction false} DecimalReads(n: nat)
    ensures AllDigits(Decimal(n)) && DigitsValue(Decimal(n)) == n
    decreases n
  {
    if n < 10 {
      assert [Digit(n)] == [] + [Digit(n)];
      DigitsSnoc([], n);
    } else {
      DecimalReads(n / 10);
      DigitsSnoc(Decimal(n / 10), n % 10);
    }
  }

  lemma {:induction false} ZerosRead(k: nat, n: nat)
    ensures AllDigits(Zeros(k) + Decimal(n)) && DigitsValue(Zeros(k) + Decimal(n)) == n
    decreases n
  {
    if n < 10 {
      OnlyZeros(k);
      DigitsSnoc(Zeros(k), n);
    } else {
      ZerosRead(k, n / 10);
      DigitsSnoc(Zeros(k) + Decimal(n / 10), n % 10);
      assert (Zeros(k) + Decimal(n / 10)) + [Digit(n % 10)] == Zeros(k) + Decimal(n);
    }
  }

  lemma {:induction false} OnlyZeros(k: nat)
    ensures AllDigits(Zeros(k)) && DigitsValue(Zeros(k)) == 0
  {
    if k > 0 {
      OnlyZeros(k - 1);
      assert Zeros(k)[..k - 1] == Zeros(k - 1);
    }
  }

  /** A string of digits is a decimal number, possibly with zeros in front. */
  lemma {:induction false} DigitsAreDecimal(s: string) returns (k: nat)
    requires s != [] && AllDigits(s)
    ensures s == Zeros(k) + Decimal(DigitsValue(s))
    decreases |s|
  {
    var front, last := s[..|s| - 1], s[|s| - 1];
    assert IsDigit(last);
    var d: nat := last as int - '0' as int;
    assert s == front + [Digit(d)];
    if front == [] {
      k := 0;
      assert DigitsValue(s) == d;
    } else {
      k := DigitsAreDecimal(front);
      var v := DigitsValue(front);
      if v == 0 {
        assert front == Zeros(k + 1);
        k := k + 1;
      } else {
        assert Decimal(10 * v + d) == Decimal(v) + [Digit(d)];
      }
    }
  }

  /** Which texts are read as a number: its decimal form, after any zeros and possibly a plus sign. */
  lemma NumbersAreDecimal(s: string, n: nat)
    ensures ParseU32(s) == Some(n) <==>
      n < 0x1_0000_0000 && exists k: nat :: s == Zeros(k) + Decimal(n) || s == "+" + (Zeros(k) + Decimal(n))
  {
    hide Decimal, DigitsValue, Zeros;
    if ParseU32(s) == Some(n) {
      var digits := if s[0] == '+' then s[1..] else s;
      var k := DigitsAreDecimal(digits);
      assert s[0] == '+' ==> s == "+" + digits;
    }
    if k: nat :| s == Zeros(k) + Decimal(n) || s == "+" + (Zeros(k) + Decimal(n)) {
      ZerosRead(k, n);
      DigitsRead(Zeros(k) + Decimal(n), s);
    }
  }

  lemma DigitsRead(text: string, s: string)
    requires text != [] && AllDigits(text) && (s == text || s == "+" + text)
    ensures ParseU32(s) == if DigitsValue(text) < 0x1_0000_0000 then Some(DigitsValue(text)) else None
  {
    hide DigitsValue;
    assert IsDigit(text[0]);
    assert ("+" + text)[1..] == text;
  }

  /** The parts with dots between them. */
  function Join(parts: seq<string>): string
    requires parts != []
  {
    if |parts| == 1 then parts[0] else parts[0] + "." + Join(parts[1..])
  }

  lemma {:induction false} SplitFirst(p: string, t: string)
    requires '.' !in p
    ensures SplitDots(p) == [p] && SplitDots(p + "." + t) == [p] + SplitDots(t)
    decreases |p|
  {
    var s := p + "." + t;
    if p == [] {
      assert s[0] == '.' && s[1..] == t;
    } else {
      SplitFirst(p[1..], t);
      assert s[0] == p[0] && s[1..] == p[1..] + "." + t;
      assert p == [p[0]] + p[1..];
      assert ([p[1..]] + SplitDots(t))[1..] == SplitDots(t) && [p[1..]][1..] == [];
    }
  }

  /** Splitting undoes joining, for parts without dots. */
  lemma {:induction false} SplitUndoesJoin(parts: seq<string>)
    requires parts != [] && forall p :: p in parts ==> '.' !in p
    ensures SplitDots(Join(parts)) == parts
    decreases |parts|
  {
    assert parts[0] in parts && parts == [parts[0]] + parts[1..];
    if |parts| == 1 {
      SplitFirst(parts[0], []);
    } else {
      SplitUndoesJoin(parts[1..]);
      SplitFirst(parts[0], Join(parts[1..]));
    }
  }

  lemma {:induction false} NumbersAppend(a: seq<string>, b: seq<string>)
    ensures Numbers(a + b) == Numbers(a) + Numbers(b)
    decreases |a|
  {
    if a == [] {
      assert a + b == b;
    } else {
      assert (a + b)[0] == a[0] && (a + b)[1..] == a[1..] + b;
      NumbersAppend(a[1..], b);
    }
  }

  /** A part that is not a number is dropped, and the others keep their order. */
  lemma NonNumberDropped(a: seq<string>, x: string, b: seq<string>)
    requires a + b != [] && forall p :: p in a + [x] + b ==> '.' !in p
    requires ParseU32(x).None?
    ensures Parse(Join(a + [x] + b)) == Parse(Join(a + b))
  {
    hide SplitDots, Join, Numbers, ParseU32;
    forall p | p in a + b
      ensures '.' !in p
    {
      assert p in a || p in b;
      assert p in a + [x] + b;
    }
    SplitUndoesJoin(a + [x] + b);
    SplitUndoesJoin(a + b);
    NumbersWithout(a, x, b);
  }

  lemma NumbersWithout(a: seq<string>, x: string, b: seq<string>)
    requires ParseU32(x).None?
    ensures Numbers(a + [x] + b) == Numbers(a + b)
  {
    NumbersAppend(a + [x], b);
    NumbersAppend(a, [x]);
    NumbersAppend(a, b);
    assert [x][1..] == [] && Numbers([x]) == [];
    assert Numbers(a) + [] == Numbers(a);
  }

  function Decimals(v: Version): (r: seq<string>)
    ensures |r| == |v| && forall i :: 0 <= i < |v| ==> r[i] == Decimal(v[i])
  {
    seq(|v|, i requires 0 <= i < |v| => Decimal(v[i]))
  }

  /** A version as it is written. */
  function Printed(v: Version): string
    requires v != []
  {
    Join(Decimals(v))
  }

  ghost predicate Fits(v: Version) {
    v != [] && forall i :: 0 <= i < |v| ==> v[i] < 0x1_0000_0000
  }

  lemma {:induction false} DecimalsRead(v: Version)
    requires forall i :: 0 <= i < |v| ==> v[i] < 0x1_0000_0000
    ensures Numbers(Decimals(v)) == v
    decreases |v|
  {
    if v != [] {
      assert Zeros(0) + Decimal(v[0]) == Decimal(v[0]);
      NumbersAreDecimal(Decimal(v[0]), v[0]);
      assert Decimals(v)[1..] == Decimals(v[1..]);
      DecimalsRead(v[1..]);
    }
  }

  /** Parsing a printed version gives the version back. */
  lemma ParseUndoesPrint(v: Version)
    requires Fits(v)
    ensures Parse(Printed(v)) == v
  {
    forall p | p in Decimals(v)
      ensures '.' !in p
    {
      var i :| 0 <= i < |v| && Decimals(v)[i] == p;
      DecimalReads(v[i]);
      assert forall c :: c in p ==> IsDigit(c);
    }
    SplitUndoesJoin(Decimals(v));
    DecimalsRead(v);
  }

  // ---------------------------------------------------------------------------
  // The order

  function At(v: Version, i: nat): nat {
    if i < |v| then v[i] else 0
  }

  ghost predicate BelowAt(a: Version, b: Version, i: nat) {
    At(a, i) < At(b, i) && forall j: nat :: j < i ==> At(a, j) == At(b, j)
  }

  /** Lexicographic comparison of the components, padded with zeros. */
  ghost predicate Below(a: Version, b: Version) {
    exists i: nat :: BelowAt(a, b, i)
  }

  ghost predicate SamePadded(a: Version, b: Version) {
    forall i: nat :: At(a, i) == At(b, i)
  }

  ghost predicate IsDowngrade(current: Version, newer: Version) {
    current != [] && newer != [] && Below(newer, current)
  }

  /** `is_downgrade`. */
  method CheckDowngrade(current: string, newer: string) returns (down: bool)
    ensures down <==> IsDowngrade(Parse(current), Parse(newer))
    ensures forall v, w :: Fits(v) && Fits(w) && current == Printed(v) && newer == Printed(w) ==>
      (down <==> Below(w, v))
  {
    forall v, w | Fits(v) && Fits(w) && current == Printed(v) && newer == Printed(w)
      ensures Parse(current) == v && Parse(newer) == w
    {
      ParseUndoesPrint(v);
      ParseUndoesPrint(w);
    }
    hide Parse, Printed, Fits;
    var c, n := Parse(current), Parse(newer);
    if |c| == 0 || |n| == 0 {
      return false;
    }
    var i := 0;
    while i < |c| || i < |n|
      invariant forall j: nat :: j < i ==> At(n, j) == At(c, j)
      decreases |c| + |n| - i
    {
      if At(n, i) < At(c, i) {
        assert BelowAt(n, c, i);
        return true;
      }
      if At(n, i) > At(c, i) {
        assert BelowAt(c, n, i);
        BelowIsAsymmetric(c, n);
        return false;
      }
      i := i + 1;
    }
    assert forall j: nat :: At(n, j) == At(c, j);
    return false;
  }

  /** The first difference decides. */
  lemma FirstDifferenceDecides(front: Version, x: nat, y: nat, a: Version, b: Version)
    requires x < y
    ensures Below(front + [x] + a, front + [y] + b)
  {
    assert BelowAt(front + [x] + a, front + [y] + b, |front|);
  }

  /** Two versions are equal up to padding exactly when the longer one only adds zeros. */
  lemma SamePaddedExactly(a: Version, b: Version)
    requires |a| <= |b|
    ensures SamePadded(a, b) <==> a == b[..|a|] && forall i :: |a| <= i < |b| ==> b[i] == 0
  {
    if SamePadded(a, b) {
      forall i | 0 <= i < |b|
        ensures b[i] == if i < |a| then a[i] else 0
      {
        assert At(a, i) == At(b, i);
      }
    }
  }

  lemma BelowIsAsymmetric(a: Version, b: Version)
    requires Below(a, b)
    ensures !Below(b, a) && !SamePadded(a, b)
  {
    var i: nat :| BelowAt(a, b, i);
    forall j: nat
      ensures !BelowAt(b, a, j)
    {
      if j < i {
        assert At(a, j) == At(b, j);
      }
    }
  }

  lemma BelowIsTransitive(a: Version, b: Version, c: Version)
    requires Below(a, b) && Below(b, c)
    ensures Below(a, c)
  {
    var i: nat :| BelowAt(a, b, i);
    var j: nat :| BelowAt(b, c, j);
    assert BelowAt(a, c, if i < j then i else j);
  }

  /** The first place where two versions differ, if any before n. */
  lemma {:induction false} Compare(a: Version, b: Version, n: nat)
    ensures Below(a, b) || Below(b, a) || forall i: nat :: i < n ==> At(a, i) == At(b, i)
    decreases n
  {
    if n > 0 {
      Compare(a, b, n - 1);
      var k: nat := n - 1;
      if forall i: nat :: i < k ==> At(a, i) == At(b, i) {
        assert At(a, k) < At(b, k) ==> BelowAt(a, b, k);
        assert At(b, k) < At(a, k) ==> BelowAt(b, a, k);
      }
    }
  }

  /** Exactly one of: below, above, equal up to trailing zeros. */
  lemma Trichotomy(a: Version, b: Version)
    ensures Below(a, b) || Below(b, a) || SamePadded(a, b)
    ensures !(Below(a, b) && Below(b, a)) && !(Below(a, b) && SamePadded(a, b)) && !(Below(b, a) && SamePadded(a, b))
  {
    Compare(a, b, |a| + |b|);
    if Below(a, b) {
      BelowIsAsymmetric(a, b);
    }
    if Below(b, a) {
      BelowIsAsymmetric(b, a);
    }
  }

  lemma BelowRespectsPadding(a: Version, b: Version, b': Version)
    requires SamePadded(b, b')
    ensures Below(a, b) <==> Below(a, b')
    ensures Below(b, a) <==> Below(b', a)
  {
    if i: nat :| BelowAt(a, b, i) { assert BelowAt(a, b', i); }
    if i: nat :| BelowAt(a, b', i) { assert BelowAt(a, b, i); }
    if i: nat :| BelowAt(b, a, i) { assert BelowAt(b', a, i); }
    if i: nat :| BelowAt(b', a, i) { assert BelowAt(b, a, i); }
  }

  /** Not being below is transitive too: the order is a strict weak order. */
  lemma NotBelowIsTransitive(a: Version, b: Version, c: Version)
    requires !Below(b, a) && !Below(c, b)
    ensures !Below(c, a)
  {
    Trichotomy(a, b);
    Trichotomy(b, c);
    Trichotomy(a, c);
    if Below(c, a) {
      if Below(a, b) {
        BelowIsTransitive(c, a, b);
      } else {
        BelowRespectsPadding(c, a, b);
      }
    }
  }

  /** Every update of the chain is accepted: none is a downgrade of the one before. */
  ghost predicate AcceptedChain(chain: seq<Version>) {
    forall i, j :: 0 <= i < j < |chain| && j == i + 1 ==> !IsDowngrade(chain[i], chain[j])
  }

  /** Along a chain of accepted numeric versions nothing is below anything earlier. */
  lemma {:induction false} ChainNeverGoesBack(chain: seq<Version>, i: nat, j: nat)
    requires AcceptedChain(chain) && i <= j < |chain|
    requires forall k :: i <= k <= j ==> chain[k] != []
    ensures !Below(chain[j], chain[i])
    decreases j
  {
    if i == j {
      forall k: nat
        ensures !BelowAt(chain[i], chain[i], k)
      {
      }
    } else {
      ChainNeverGoesBack(chain, i, j - 1);
      assert !IsDowngrade(chain[j - 1], chain[j]);
      NotBelowIsTransitive(chain[i], chain[j - 1], chain[j]);
    }
  }

  /**
   * A version is a safe stepping stone, one through which no accepted pair of updates goes back,
   * exactly when it has a numeric component.
   */
  lemma SafeExactlyWhenNumeric(v: Version)
    ensures v != [] <==>
      forall a: Version, c: Version ::
        a != [] && c != [] && !IsDowngrade(a, v) && !IsDowngrade(v, c) ==> !Below(c, a)
  {
    if v != [] {
      forall a: Version, c: Version | a != [] && c != [] && !IsDowngrade(a, v) && !IsDowngrade(v, c)
        ensures !Below(c, a)
      {
        NotBelowIsTransitive(a, v, c);
      }
    } else {
      assert BelowAt([1], [2], 0);
      assert !IsDowngrade([2], v) && !IsDowngrade(v, [1]);
    }
  }

  lemma ParseOneChar(c: char)
    requires c != '.'
    ensures Parse([c]) == if IsDigit(c) then [c as int - '0' as int] else []
  {
    var x := [c];
    assert x[1..] == [] && SplitDots([]) == [[]];
    assert SplitDots(x) == [[x[0]] + SplitDots([])[0]] + SplitDots([])[1..];
    assert [x[0]] + SplitDots([])[0] == x && SplitDots([])[1..] == [];
    assert SplitDots(x) == [x] && [x][1..] == [];
    if IsDigit(c) {
      assert AllDigits(x) && x[..0] == [];
      assert DigitsValue(x) == 10 * DigitsValue(x[..0]) + (c as int - '0' as int);
      assert ParseU32(x) == Some(c as int - '0' as int);
    } else {
      assert !IsDigit(x[0]) && !AllDigits(x);
      assert ParseU32(x) == None;
    }
    assert Numbers([x]) == match ParseU32(x) { case Some(n) => [n] + Numbers([x][1..]) case None => Numbers([x][1..]) };
  }

  /** "2", then "x", then "1": each step is accepted although the whole is a downgrade. */
  lemma UnnumberedVersionHidesDowngrade()
    ensures !IsDowngrade(Parse("2"), Parse("x")) && !IsDowngrade(Parse("x"), Parse("1"))
    ensures IsDowngrade(Parse("2"), Parse("1"))
  {
    ParseOneChar('2');
    ParseOneChar('x');
    ParseOneChar('1');
    assert ['2'] == "2" && ['x'] == "x" && ['1'] == "1";
    assert BelowAt([1], [2], 0);
  }

  // ---------------------------------------------------------------------------
  // Bundles

  type Key
  type Data

  datatype Metadata = Metadata(version: string, device: string, timestamp: nat)

  datatype SignedBundle = SignedBundle(data: Data, signature: string)

  datatype UpdateError =
    | InvalidSignatureEncoding
    | SignatureInvalid
    | BadMetadata
    | IncompatibleDevice
    | Downgrade
    | Expired

  const SIGNATURE_LENGTH: nat := 64

  /** The libraries the verifier calls. */
  datatype Library = Library(
    decodeHex: string -> Option<Bytes>,
    verifies: (Key, Data, Bytes) -> bool,
    parseMetadata: Data -> Option<Metadata>
  )

  class BundleVerifier {
    var trustedKeys: seq<Key>
    var maxAgeSecs: nat
    var allowedDevices: seq<string>

    constructor (key: Key)
      ensures trustedKeys == [key] && maxAgeSecs == 90 * 24 * 3600 && allowedDevices == []
    {
      trustedKeys, maxAgeSecs, allowedDevices := [key], 90 * 24 * 3600, [];
    }

    method AddKey(key: Key)
      modifies this`trustedKeys
      ensures trustedKeys == old(trustedKeys) + [key]
    {
      trustedKeys := trustedKeys + [key];
    }

    method SetMaxAge(secs: nat)
      modifies this`maxAgeSecs
      ensures maxAgeSecs == secs
    {
      maxAgeSecs := secs;
    }

    method SetAllowedDevices(devices: seq<string>)
      modifies this`allowedDevices
      ensures allowedDevices == devices
    {
      allowedDevices := devices;
    }

    ghost predicate WellEncoded(lib: Library, bundle: SignedBundle) {
      lib.decodeHex(bundle.signature).Some? && |lib.decodeHex(bundle.signature).value| == SIGNATURE_LENGTH
    }

    /** Some trusted key verifies this signature, well-formed, over this data. */
    ghost predicate Signed(lib: Library, bundle: SignedBundle)
      reads this
    {
      && WellEncoded(lib, bundle)
      && exists i ::
        0 <= i < |trustedKeys| && lib.verifies(trustedKeys[i], bundle.data, lib.decodeHex(bundle.signature).value)
    }

    /** The age limit, with the sum wrapping at 64 bits as in a release build. */
    predicate Stale(meta: Metadata, now: nat)
      reads this
    {
      (meta.timestamp + maxAgeSecs) % TWO_TO_THE_64 < now
    }

    predicate DeviceAllowed(meta: Metadata)
      reads this
    {
      allowedDevices == [] || meta.device in allowedDevices
    }

    ghost predicate NotDowngraded(meta: Metadata, current: Option<string>) {
      current.Some? ==> !IsDowngrade(Parse(current.value), Parse(meta.version))
    }

    /** The signature verifies and the signed data is this metadata. */
    ghost predicate Authentic(lib: Library, bundle: SignedBundle, meta: Metadata)
      reads this
    {
      Signed(lib, bundle) && lib.parseMetadata(bundle.data) == Some(meta)
    }

    /** The loop over the trusted keys. */
    method AnyKeyVerifies(lib: Library, bundle: SignedBundle, signature: Bytes) returns (verified: bool)
      requires WellEncoded(lib, bundle) && signature == lib.decodeHex(bundle.signature).value
      ensures verified <==> Signed(lib, bundle)
    {
      verified := false;
      var i := 0;
      while i < |trustedKeys| && !verified
        invariant 0 <= i <= |trustedKeys|
        invariant verified ==> Signed(lib, bundle)
        invariant !verified ==> forall k :: 0 <= k < i ==> !lib.verifies(trustedKeys[k], bundle.data, signature)
      {
        if lib.verifies(trustedKeys[i], bundle.data, signature) {
          verified := true;
        }
        i := i + 1;
      }
    }

    /**
     * `verify_bundle`.  Each outcome says which checks passed and which one failed, so that exactly
     * one of them is possible: the first check that fails decides.
     */
    method VerifyBundle(lib: Library, bundle: SignedBundle, current: Option<string>, now: nat)
      returns (r: Result<Metadata, UpdateError>, ghost meta: Option<Metadata>)
      ensures meta == lib.parseMetadata(bundle.data)
      ensures
        match r
        case Ok(m) => Authentic(lib, bundle, m) && DeviceAllowed(m) && NotDowngraded(m, current) && !Stale(m, now)
        case Err(InvalidSignatureEncoding) => !WellEncoded(lib, bundle)
        case Err(SignatureInvalid) => WellEncoded(lib, bundle) && !Signed(lib, bundle)
        case Err(BadMetadata) => Signed(lib, bundle) && meta.None?
        case Err(IncompatibleDevice) => meta.Some? && Authentic(lib, bundle, meta.value) && !DeviceAllowed(meta.value)
        case Err(Downgrade) =>
          && meta.Some? && Authentic(lib, bundle, meta.value) && DeviceAllowed(meta.value)
          && !NotDowngraded(meta.value, current)
        case Err(Expired) =>
          && meta.Some? && Authentic(lib, bundle, meta.value) && DeviceAllowed(meta.value)
          && NotDowngraded(meta.value, current) && Stale(meta.value, now)
      ensures r.Ok? ==> r.value.timestamp + maxAgeSecs >= now && meta == Some(r.value)
      ensures r == Err(Expired) && meta.value.timestamp + maxAgeSecs < 0x1_0000_0000_0000_0000 ==>
        meta.value.timestamp + maxAgeSecs < now
      ensures r.Ok? <==>
        var signature := lib.decodeHex(bundle.signature);
        && signature.Some? && |signature.value| == 64
        && (exists key :: key in trustedKeys && lib.verifies(key, bundle.data, signature.value))
        && meta.Some?
        && (allowedDevices == [] || meta.value.device in allowedDevices)
        && (current.Some? ==> !IsDowngrade(Parse(current.value), Parse(meta.value.version)))
        && (meta.value.timestamp + maxAgeSecs) % 0x1_0000_0000_0000_0000 >= now
    {
      hide Parse, IsDowngrade;
      meta := lib.parseMetadata(bundle.data);
      var decoded := lib.decodeHex(bundle.signature);
      if decoded.None? || |decoded.value| != SIGNATURE_LENGTH {
        return Err(InvalidSignatureEncoding), meta;
      }
      var verified := AnyKeyVerifies(lib, bundle, decoded.value);
      if !verified {
        return Err(SignatureInvalid), meta;
      }
      var parsed := lib.parseMetadata(bundle.data);
      if parsed.None? {
        return Err(BadMetadata), meta;
      }
      var bundleMeta := parsed.value;
      if |allowedDevices| > 0 && bundleMeta.device !in allowedDevices {
        return Err(IncompatibleDevice), meta;
      }
      if current.Some? {
        var down := CheckDowngrade(current.value, bundleMeta.version);
        if down {
          return Err(Downgrade), meta;
        }
      }
      if Stale(bundleMeta, now) {
        return Err(Expired), meta;
      }
      WrapOnlyShrinks(bundleMeta.timestamp + maxAgeSecs);
      return Ok(bundleMeta), meta;
    }
  }

  lemma WrapOnlyShrinks(n: nat)
    ensures n % TWO_TO_THE_64 <= n
  {
  }
}
