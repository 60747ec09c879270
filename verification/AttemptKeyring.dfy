/** Mapping an unbounded identifier space into a fixed grid of buckets. */
module AttemptKeyring {
  import opened Wrappers
  import opened Bytes
  import opened Division
  import opened FiniteSets
  import opened Sequences
  import opened Attempts
  import opened AttemptStore

  type Octets4 = o: seq<Byte> | |o| == 4 witness [0, 0, 0, 0]

  type Octets16 = o: seq<Byte> | |o| == 16 witness [0, 0, 0, 0, 0, 0, 0, 0, 0, 0, 0, 0, 0, 0, 0, 0]

  const WORDS: nat := 0x1_0000_0000

  type Word = w: nat | w < WORDS

  // ---- Buckets -------------------------------------------------------------------------------

  predicate IsPowerOfTwo(n: nat) {
    n == 1 || (n > 1 && n % 2 == 0 && IsPowerOfTwo(n / 2))
  }

  const MIN_BUCKETS: nat := 256
  const MAX_BUCKETS: nat := 1_048_576

  type BucketCount = c: nat | MIN_BUCKETS <= c <= MAX_BUCKETS && IsPowerOfTwo(c) witness MIN_BUCKETS

  /** Bitwise conjunction, bit by bit. */
  function And(x: nat, y: nat): nat {
    if x == 0 || y == 0 then 0
    else 2 * And(x / 2, y / 2) + (if x % 2 == 1 && y % 2 == 1 then 1 else 0)
  }

  /** The reduction the keyring applies to a digest head. */
  function Masked(head: nat, buckets: BucketCount): nat {
    And(head, buckets - 1)
  }

  function MaxRows(buckets: BucketCount): nat {
    DIMENSION_COUNT * buckets
  }

  lemma HalvingModulo(x: nat, d: nat)
    requires d > 0
    ensures x % (2 * d) == 2 * (x / 2 % d) + x % 2
  {
    var q := x / 2 / d;
    assert x / 2 == q * d + x / 2 % d;
    var r := 2 * (x / 2 % d) + x % 2;
    assert x == q * (2 * d) + r;
    QuotientIs(x, 2 * d, q);
  }

  /** For a power of two, masking with `c - 1` is reduction modulo `c`. */
  lemma {:induction false} MaskIsModulo(x: nat, c: nat)
    requires IsPowerOfTwo(c)
    ensures And(x, c - 1) == x % c
  {
    if c > 1 {
      assert (c - 1) / 2 == c / 2 - 1 && (c - 1) % 2 == 1;
      MaskIsModulo(x / 2, c / 2);
      HalvingModulo(x, c / 2);
    }
  }

  lemma {:induction false} PowersOfTwoDivide(c: nat, n: nat)
    requires IsPowerOfTwo(c) && IsPowerOfTwo(n) && c <= n
    ensures n % c == 0
  {
    if c > 1 {
      PowersOfTwoDivide(c / 2, n / 2);
      HalvingModulo(n, c / 2);
    }
  }

  lemma {:induction false} PowersOfTwoMultiply(a: nat, b: nat)
    requires IsPowerOfTwo(a) && IsPowerOfTwo(b)
    ensures IsPowerOfTwo(a * b)
  {
    if b > 1 {
      var h := b / 2;
      PowersOfTwoMultiply(a, h);
      var half := a * h;
      assert b == 2 * h && a * b == 2 * half;
      assert a * b / 2 == half && a * b % 2 == 0;
    }
  }

  ghost function Preimages(n: nat, c: nat, b: nat): set<nat>
    requires c > 0
  {
    set x: nat | x < n && x % c == b
  }

  lemma NextPreimage(n: nat, c: nat, b: nat, q: nat)
    requires b < c && n == q * c
    ensures |Preimages(n + c, c, b)| == |Preimages(n, c, b)| + 1
  {
    forall x: nat | n <= x < n + c
      ensures x % c == x - n
    {
      QuotientIs(x, c, q);
    }
    assert (n + b) % c == b;
    assert Preimages(n + c, c, b) == Preimages(n, c, b) + {n + b};
  }

  lemma {:induction false} PreimagesOfAMultiple(q: nat, c: nat, b: nat)
    requires b < c
    ensures |Preimages(q * c, c, b)| == q
  {
    if q == 0 {
      assert Preimages(0, c, b) == {};
    } else {
      PreimagesOfAMultiple(q - 1, c, b);
      assert q * c == (q - 1) * c + c;
      NextPreimage((q - 1) * c, c, b, q - 1);
    }
  }

  /** The mask is unbiased: every bucket is the image of exactly `2^32 / count` digest heads. */
  lemma EveryBucketHasTheSameShare(count: BucketCount, bucket: nat)
    requires bucket < count
    ensures |set w: nat | w < WORDS && Masked(w, count) == bucket| == WORDS / count
  {
    assert IsPowerOfTwo(0x1_0000);
    PowersOfTwoMultiply(0x1_0000, 0x1_0000);
    PowersOfTwoDivide(count, WORDS);
    var q := WORDS / count;
    assert q * count == WORDS;
    PreimagesOfAMultiple(q, count, bucket);
    forall w: nat
      ensures Masked(w, count) == w % count
    {
      MaskIsModulo(w, count);
    }
    assert (set w: nat | w < WORDS && Masked(w, count) == bucket) == Preimages(WORDS, count, bucket);
  }

  // ---- Keys ----------------------------------------------------------------------------------

  datatype Address = V4(octets: Octets4) | V6(segments: Octets16)

  datatype AttemptKey =
    | AccountKey(identifier: string)
    | ClientKey(id: Octets16)
    | NetworkKey(address: Address)

  /** What is left of a key once equivalent spellings are folded together. */
  datatype CanonicalKey =
    | Identifier(text: seq<Byte>)
    | Family(id: Octets16)
    | HostV4(octets: Octets4)
    | PrefixV6(prefix: seq<Byte>)

  function KeyAxis(key: AttemptKey): AttemptAxis {
    match key
    case AccountKey(_) => Account
    case ClientKey(_) => Client
    case NetworkKey(_) => Network
  }

  function CanonicalAxis(key: CanonicalKey): AttemptAxis {
    match key
    case Identifier(_) => Account
    case Family(_) => Client
    case _ => Network
  }

  /** Section 2.5.5.2 of RFC 4291: ten zero octets, two of all ones, then the IPv4 address. */
  predicate IsV4Mapped(segments: Octets16) {
    segments[..12] == [0, 0, 0, 0, 0, 0, 0, 0, 0, 0, 0xFF, 0xFF]
  }

  /** `fold` stands for the UTF-8 bytes of the trimmed, lower-cased identifier. */
  function Canonical(fold: string -> seq<Byte>, key: AttemptKey): (c: CanonicalKey)
    ensures CanonicalAxis(c) == KeyAxis(key)
    ensures c.PrefixV6? ==> |c.prefix| == 8
  {
    match key
    case AccountKey(identifier) => Identifier(fold(identifier))
    case ClientKey(id) => Family(id)
    case NetworkKey(V4(octets)) => HostV4(octets)
    case NetworkKey(V6(segments)) =>
      if IsV4Mapped(segments) then HostV4(segments[12..]) else PrefixV6(segments[..8])
  }

  function KeyBytes(fold: string -> seq<Byte>, key: AttemptKey): seq<Byte> {
    match key
    case AccountKey(identifier) => fold(identifier)
    case ClientKey(id) => id
    case NetworkKey(V4(octets)) => [4] + octets
    case NetworkKey(V6(segments)) =>
      if IsV4Mapped(segments) then [4] + segments[12..] else [6] + segments[..8]
  }

  function Tag(dimension: AttemptDimension): string {
    match dimension
    case RegisterAccount => "register/account"
    case RegisterNetwork => "register/network"
    case LogInAccount => "login/account"
    case LogInNetwork => "login/network"
    case VerificationResendAccount => "verification-resend/account"
    case VerificationResendNetwork => "verification-resend/network"
    case VerificationCompleteNetwork => "verification-complete/network"
    case ForgotPasswordAccount => "forgot-password/account"
    case ForgotPasswordNetwork => "forgot-password/network"
    case ResetPasswordNetwork => "reset-password/network"
    case TokenRefreshClient => "token-refresh/client"
    case TokenRefreshNetwork => "token-refresh/network"
  }

  const SEPARATOR: int := 0x1F

  function Octets(text: string): seq<int> {
    seq(|text|, i requires 0 <= i < |text| => text[i] as int)
  }

  function MacInput(fold: string -> seq<Byte>, dimension: AttemptDimension, key: AttemptKey): seq<int> {
    Octets(Tag(dimension)) + [SEPARATOR] + KeyBytes(fold, key)
  }

  predicate Clean(text: string) {
    forall c :: c in text ==> c as int != SEPARATOR
  }

  lemma NetworkTagIsClean(dimension: AttemptDimension)
    requires AxisOf(dimension) == Network
    ensures Clean(Tag(dimension))
  {
  }

  lemma OtherTagIsClean(dimension: AttemptDimension)
    requires AxisOf(dimension) != Network
    ensures Clean(Tag(dimension))
  {
  }

  lemma TagIsClean(dimension: AttemptDimension)
    ensures Clean(Tag(dimension))
  {
    if AxisOf(dimension) == Network {
      NetworkTagIsClean(dimension);
    } else {
      OtherTagIsClean(dimension);
    }
  }

  lemma CleanOctets(text: string)
    requires Clean(text)
    ensures SEPARATOR !in Octets(text)
  {
    assert forall i :: 0 <= i < |text| ==> Octets(text)[i] == text[i] as int && text[i] in text;
  }

  lemma TagsDiffer(d: AttemptDimension, e: AttemptDimension)
    requires Tag(d) == Tag(e)
    ensures d == e
  {
    var t, u := Tag(d), Tag(e);
    assert |t| == |u|;
    assert t[0] == u[0] && t[|t| - 2] == u[|u| - 2];
  }

  lemma OctetsInjective(t: string, u: string)
    requires Octets(t) == Octets(u)
    ensures t == u
  {
    assert |t| == |Octets(t)| == |Octets(u)| == |u|;
    forall i | 0 <= i < |t|
      ensures t[i] == u[i]
    {
      assert Octets(t)[i] == Octets(u)[i];
    }
  }

  /**
   * The MAC input is unambiguous: two inputs are equal exactly when the dimensions are equal and the
   * keys are equal once folded, whatever bytes the account text contains.
   */
  lemma MacInputIsInjective(
      fold: string -> seq<Byte>, d: AttemptDimension, k: AttemptKey, e: AttemptDimension, j: AttemptKey)
    requires AxisOf(d) == KeyAxis(k) && AxisOf(e) == KeyAxis(j)
    ensures MacInput(fold, d, k) == MacInput(fold, e, j)
      <==> d == e && Canonical(fold, k) == Canonical(fold, j)
  {
    if MacInput(fold, d, k) == MacInput(fold, e, j) {
      TagIsClean(d);
      TagIsClean(e);
      CleanOctets(Tag(d));
      CleanOctets(Tag(e));
      CutAtFirst(Octets(Tag(d)), Octets(Tag(e)), KeyBytes(fold, k), KeyBytes(fold, j), SEPARATOR);
      OctetsInjective(Tag(d), Tag(e));
      TagsDiffer(d, e);
      KeyBytesInjective(fold, k, j);
    }
  }

  lemma KeyBytesInjective(fold: string -> seq<Byte>, k: AttemptKey, j: AttemptKey)
    requires KeyAxis(k) == KeyAxis(j) && KeyBytes(fold, k) == KeyBytes(fold, j)
    ensures Canonical(fold, k) == Canonical(fold, j)
  {
    if k.NetworkKey? {
      var a, b := KeyBytes(fold, k), KeyBytes(fold, j);
      assert a[0] == b[0] && a[1..] == b[1..];
    }
  }

  // ---- The keyring ---------------------------------------------------------------------------

  /** `head` stands for the first four octets, read big-endian, of the digest under the server key. */
  datatype Keyring = Keyring(fold: string -> seq<Byte>, head: seq<int> -> Word, buckets: BucketCount)

  /** The bucket of a key, or `None` when the key's axis is not the dimension's. */
  function Bucket(ring: Keyring, dimension: AttemptDimension, key: AttemptKey): (b: Option<nat>)
    ensures b.Some? <==> AxisOf(dimension) == KeyAxis(key)
    ensures b.Some? ==> b.value == ring.head(MacInput(ring.fold, dimension, key)) % ring.buckets
    ensures b.Some? ==> b.value < ring.buckets
  {
    if AxisOf(dimension) != KeyAxis(key) then None
    else
      var head := ring.head(MacInput(ring.fold, dimension, key));
      MaskIsModulo(head, ring.buckets);
      Some(Masked(head, ring.buckets))
  }

  /** Spellings that fold together share a counter on every dimension. */
  lemma EquivalentKeysShareABucket(ring: Keyring, dimension: AttemptDimension, k: AttemptKey, j: AttemptKey)
    requires Canonical(ring.fold, k) == Canonical(ring.fold, j)
    ensures Bucket(ring, dimension, k) == Bucket(ring, dimension, j)
  {
    if AxisOf(dimension) == KeyAxis(k) {
      MacInputIsInjective(ring.fold, dimension, k, dimension, j);
    }
  }

  /** The bucket is the head of the digest of the key's own MAC input, modulo the bucket count. */
  lemma BucketIsTheHeadModuloBuckets(ring: Keyring, dimension: AttemptDimension, key: AttemptKey)
    ensures Bucket(ring, dimension, key)
      == if AxisOf(dimension) == KeyAxis(key)
         then Some(ring.head(MacInput(ring.fold, dimension, key)) % ring.buckets)
         else None
  {
    MaskIsModulo(ring.head(MacInput(ring.fold, dimension, key)), ring.buckets);
  }

  /** The keyring when every digest starts with `w`. */
  function WithHead(ring: Keyring, w: Word): Keyring {
    ring.(head := _ => w)
  }

  /** Over all digest heads, each bucket is the bucket of a key for exactly `2^32 / count` of them. */
  lemma EveryKeyMeetsEachBucketAlike(ring: Keyring, dimension: AttemptDimension, key: AttemptKey, bucket: nat)
    requires AxisOf(dimension) == KeyAxis(key) && bucket < ring.buckets
    ensures |set w: nat | w < WORDS && Bucket(WithHead(ring, w), dimension, key) == Some(bucket)|
      == WORDS / ring.buckets
  {
    EveryBucketHasTheSameShare(ring.buckets, bucket);
    forall w: nat | w < WORDS
      ensures Bucket(WithHead(ring, w), dimension, key) == Some(Masked(w, ring.buckets))
    {
      BucketIsTheHeadModuloBuckets(WithHead(ring, w), dimension, key);
      MaskIsModulo(w, ring.buckets);
    }
    assert (set w: nat | w < WORDS && Bucket(WithHead(ring, w), dimension, key) == Some(bucket))
      == (set w: nat | w < WORDS && Masked(w, ring.buckets) == bucket);
  }

  /** One network: one IPv4 address, in either form, or one IPv6 prefix of 64 bits. */
  predicate SameNetwork(a: Address, b: Address) {
    match (a, b)
    case (V4(octets), V4(others)) => octets == others
    case (V4(octets), V6(segments)) => segments == [0, 0, 0, 0, 0, 0, 0, 0, 0, 0, 0xFF, 0xFF] + octets
    case (V6(segments), V4(octets)) => segments == [0, 0, 0, 0, 0, 0, 0, 0, 0, 0, 0xFF, 0xFF] + octets
    case (V6(segments), V6(others)) =>
      segments == others
      || (segments[..8] == others[..8]
          && segments[..12] != [0, 0, 0, 0, 0, 0, 0, 0, 0, 0, 0xFF, 0xFF]
          && others[..12] != [0, 0, 0, 0, 0, 0, 0, 0, 0, 0, 0xFF, 0xFF])
  }

  /** Two keys of one party: an account however it is spelled, a client, or a network. */
  predicate SameParty(fold: string -> seq<Byte>, k: AttemptKey, j: AttemptKey) {
    match (k, j)
    case (AccountKey(a), AccountKey(b)) => fold(a) == fold(b)
    case (ClientKey(a), ClientKey(b)) => a == b
    case (NetworkKey(a), NetworkKey(b)) => SameNetwork(a, b)
    case _ => false
  }

  lemma CanonicalIsTheParty(fold: string -> seq<Byte>, k: AttemptKey, j: AttemptKey)
    ensures Canonical(fold, k) == Canonical(fold, j) <==> SameParty(fold, k, j)
  {
    if k.NetworkKey? && j.NetworkKey? {
      CanonicalIsTheNetwork(fold, k.address, j.address);
    }
  }

  lemma CanonicalIsTheNetwork(fold: string -> seq<Byte>, a: Address, b: Address)
    ensures Canonical(fold, NetworkKey(a)) == Canonical(fold, NetworkKey(b)) <==> SameNetwork(a, b)
  {
    assert a.V6? ==> a.segments == a.segments[..12] + a.segments[12..];
    assert b.V6? ==> b.segments == b.segments[..12] + b.segments[12..];
    if a.V6? && b.V6? && IsV4Mapped(a.segments) && !IsV4Mapped(b.segments) {
      assert a.segments != b.segments;
    }
  }

  lemma SmallModulo(x: nat, n: nat)
    requires x < n
    ensures x % n == x
  {
  }

  lemma SmallHeadIsTheBucket(ring: Keyring, dimension: AttemptDimension, key: AttemptKey, head: nat)
    requires AxisOf(dimension) == KeyAxis(key) && head < MIN_BUCKETS
    requires ring.head(MacInput(ring.fold, dimension, key)) == head
    ensures Bucket(ring, dimension, key) == Some(head)
  {
    SmallModulo(head, ring.buckets);
  }

  lemma OneDigestSeparates(ring: Keyring, d: AttemptDimension, k: AttemptKey, e: AttemptDimension, j: AttemptKey)
    requires AxisOf(d) == KeyAxis(k) && AxisOf(e) == KeyAxis(j)
    requires MacInput(ring.fold, d, k) != MacInput(ring.fold, e, j) && ring.head == OnlyAt(MacInput(ring.fold, d, k))
    ensures Bucket(ring, d, k) != Bucket(ring, e, j)
  {
    SmallHeadIsTheBucket(ring, d, k, 1);
    SmallHeadIsTheBucket(ring, e, j, 0);
  }

  lemma EqualInputsShareABucket(
      ring: Keyring, d: AttemptDimension, k: AttemptKey, e: AttemptDimension, j: AttemptKey)
    requires AxisOf(d) == KeyAxis(k) && AxisOf(e) == KeyAxis(j)
    requires MacInput(ring.fold, d, k) == MacInput(ring.fold, e, j)
    ensures Bucket(ring, d, k) == Bucket(ring, e, j)
  {
    BucketIsTheHeadModuloBuckets(ring, d, k);
    BucketIsTheHeadModuloBuckets(ring, e, j);
  }

  /** Keys share a counter whatever the digest exactly when dimension and party are the same. */
  lemma CountersAreSharedExactly(
      fold: string -> seq<Byte>, buckets: BucketCount,
      d: AttemptDimension, k: AttemptKey, e: AttemptDimension, j: AttemptKey)
    requires AxisOf(d) == KeyAxis(k) && AxisOf(e) == KeyAxis(j)
    ensures (forall head: seq<int> -> Word ::
               Bucket(Keyring(fold, head, buckets), d, k) == Bucket(Keyring(fold, head, buckets), e, j))
      <==> d == e && SameParty(fold, k, j)
  {
    MacInputIsInjective(fold, d, k, e, j);
    CanonicalIsTheParty(fold, k, j);
    if d == e && SameParty(fold, k, j) {
      forall head: seq<int> -> Word
        ensures Bucket(Keyring(fold, head, buckets), d, k) == Bucket(Keyring(fold, head, buckets), e, j)
      {
        EqualInputsShareABucket(Keyring(fold, head, buckets), d, k, e, j);
      }
    } else {
      OneDigestSeparates(Keyring(fold, OnlyAt(MacInput(fold, d, k)), buckets), d, k, e, j);
    }
  }

  /** A digest head that singles out one MAC input. */
  function OnlyAt(input: seq<int>): seq<int> -> Word {
    other => if other == input then 1 else 0
  }

  // ---- The row bound -------------------------------------------------------------------------

  predicate InGrid(key: RowKey, buckets: BucketCount) {
    key.bucket < buckets
  }

  lemma {:induction false} GridHolds(keys: set<RowKey>, dimensions: set<AttemptDimension>, buckets: nat)
    requires forall key :: key in keys ==> key.dimension in dimensions && key.bucket < buckets
    ensures |keys| <= |dimensions| * buckets
    decreases dimensions
  {
    if dimensions == {} {
      if key :| key in keys { assert false; }
      assert keys == {};
    } else {
      var d :| d in dimensions;
      var here := set key | key in keys && key.dimension == d;
      RangeHoldsAtMostCount(here, d, 0, buckets);
      GridHolds(keys - here, dimensions - {d}, buckets);
      RestIsSmaller(keys, here);
      NextMultiple(|dimensions - {d}|, buckets);
      assert |dimensions| == |dimensions - {d}| + 1;
    }
  }

  lemma GridBoundsRows(table: Table, buckets: BucketCount)
    requires forall key :: key in table ==> InGrid(key, buckets)
    ensures |table| <= MaxRows(buckets)
  {
    DimensionsAreTwelve();
    GridHolds(table.Keys, ALL_DIMENSIONS, buckets);
  }
}
