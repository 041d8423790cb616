/** The canonical payload a request signature covers, and the headers that carry it. */
module Payload {
  import opened Common
  import opened Text

  // ---------- canonical payload ----------

  /** What a signature speaks for.  The body enters through its digest. */
  datatype Signed = Signed(verb: string, path: string, digest: Bytes, timestamp: nat, nonce: string)

  function UpperChar(c: char): char {
    if 'a' <= c <= 'z' then (c as int - 32) as char else c
  }

  /** `str::to_ascii_uppercase`. */
  function Upper(s: string): string {
    if s == [] then [] else [UpperChar(s[0])] + Upper(s[1..])
  }

  predicate IsLower(c: char) {
    'a' <= c <= 'z'
  }

  /** Letters of the lower case move 32 down, everything else stays as and where it is. */
  lemma {:induction false} UpperIs(s: string)
    ensures |Upper(s)| == |s|
    ensures forall i :: 0 <= i < |s| ==> !IsLower(Upper(s)[i])
    ensures forall i :: 0 <= i < |s| && IsLower(s[i]) ==> Upper(s)[i] as int == s[i] as int - 32
    ensures forall i :: 0 <= i < |s| && !IsLower(s[i]) ==> Upper(s)[i] == s[i]
  {
    if s == [] {
    } else {
      UpperIs(s[1..]);
      assert forall i :: 1 <= i < |s| ==> s[i] == s[1..][i - 1] && Upper(s)[i] == Upper(s[1..])[i - 1];
    }
  }

  /** The five fields between four bars; a method in capitals appears as it is. */
  lemma PayloadLayout(r: Signed)
    ensures CanonicalPayload(r)
         == Upper(r.verb) + "|" + r.path + "|" + Hex(r.digest) + "|" + Print(r.timestamp) + "|" + r.nonce
    ensures (forall i :: 0 <= i < |r.verb| ==> !IsLower(r.verb[i])) ==>
              r.verb + "|" + r.path + "|" <= CanonicalPayload(r)
  {
    if forall i :: 0 <= i < |r.verb| ==> !IsLower(r.verb[i]) {
      UpperIs(r.verb);
      assert Upper(r.verb) == r.verb;
      var rest := Hex(r.digest) + "|" + Print(r.timestamp) + "|" + r.nonce;
      assert CanonicalPayload(r) == (r.verb + "|" + r.path + "|") + rest;
    }
  }

  function CanonicalPayload(r: Signed): string {
    Join(Join(Join(Join(Upper(r.verb), r.path), Hex(r.digest)), Print(r.timestamp)), r.nonce)
  }

  /** The fields the payload is meant to bind; the method only up to case. */
  predicate SameRequest(a: Signed, b: Signed) {
    && Upper(a.verb) == Upper(b.verb)
    && a.path == b.path
    && a.digest == b.digest
    && a.timestamp == b.timestamp
    && a.nonce == b.nonce
  }

  lemma {:induction false} UpperBars(s: string)
    ensures Bars(Upper(s)) == Bars(s)
  {
    if s == [] {
    } else {
      UpperBars(s[1..]);
      assert Upper(s)[1..] == Upper(s[1..]);
    }
  }

  /**
   Requests whose methods and nonces agree in how many `|` they hold (none, for a well-formed
   request) have the same payload exactly when they are the same request, whatever the path.
   */
  lemma PayloadBindsRequest(a: Signed, b: Signed)
    requires Bars(a.verb) == Bars(b.verb) && Bars(a.nonce) == Bars(b.nonce)
    ensures CanonicalPayload(a) == CanonicalPayload(b) <==> SameRequest(a, b)
  {
    if CanonicalPayload(a) == CanonicalPayload(b) {
      var ap, bp := Join(Upper(a.verb), a.path), Join(Upper(b.verb), b.path);
      var ah, bh := Join(ap, Hex(a.digest)), Join(bp, Hex(b.digest));
      SplitRight(Join(ah, Print(a.timestamp)), a.nonce, Join(bh, Print(b.timestamp)), b.nonce);
      PrintNoBars(a.timestamp);
      PrintNoBars(b.timestamp);
      SplitRight(ah, Print(a.timestamp), bh, Print(b.timestamp));
      HexNoBars(a.digest);
      HexNoBars(b.digest);
      SplitRight(ap, Hex(a.digest), bp, Hex(b.digest));
      UpperBars(a.verb);
      UpperBars(b.verb);
      SplitLeft(Upper(a.verb), a.path, Upper(b.verb), b.path);
      PrintInjective(a.timestamp, b.timestamp);
      HexInjective(a.digest, b.digest);
    }
  }

  /**
   Neither count can be dropped.  A nonce that itself reads as digest, timestamp and nonce makes two
   different requests share one payload.
   */
  lemma NonceBarsCollide(r: Signed, digest: Bytes, timestamp: nat, nonce: string)
    ensures var inner := Join(Join(Hex(digest), Print(timestamp)), nonce);
            var a := r.(nonce := inner);
            var b := Signed(r.verb, Join(Join(r.path, Hex(r.digest)), Print(r.timestamp)), digest, timestamp, nonce);
            CanonicalPayload(a) == CanonicalPayload(b) && !SameRequest(a, b)
  {
    var v, p, h, t := Upper(r.verb), r.path, Hex(r.digest), Print(r.timestamp);
    var d, u := Hex(digest), Print(timestamp);
    JoinAssociates(Join(Join(Join(v, p), h), t), Join(d, u), nonce);
    JoinAssociates(Join(Join(Join(v, p), h), t), d, u);
    JoinAssociates(v, Join(p, h), t);
    JoinAssociates(v, p, h);
  }

  /** Nor can the count in the method: a bar there may as well start the path. */
  lemma MethodBarsCollide(r: Signed, x: string)
    ensures var a, b := r.(verb := Join(r.verb, x)), r.(path := Join(Upper(x), r.path));
            CanonicalPayload(a) == CanonicalPayload(b) && !SameRequest(a, b)
  {
    UpperJoin(r.verb, x);
    JoinAssociates(Upper(r.verb), Upper(x), r.path);
    assert |Upper(Join(r.verb, x))| > |Upper(r.verb)|;
  }

  lemma {:induction false} UpperJoin(a: string, b: string)
    ensures Upper(Join(a, b)) == Join(Upper(a), Upper(b))
  {
    if a == [] {
      assert Join(a, b)[1..] == b;
    } else {
      assert Join(a, b)[1..] == Join(a[1..], b);
      UpperJoin(a[1..], b);
    }
  }

  // ---------- which nonces are safe ----------

  /** Requests as they occur: a SHA-256 digest is 32 bytes, a timestamp a `u64`. */
  predicate WellFormed(r: Signed) {
    |r.digest| == 32 && r.timestamp <= U64_MAX
  }

  function Tail(digest: Bytes, timestamp: nat): string {
    Join(Hex(digest), Print(timestamp))
  }

  /** `n` is `m` preceded by a digest and a timestamp, and by anything at all before those. */
  predicate ReadsAs(n: string, m: string, z: Option<string>, digest: Bytes, timestamp: nat) {
    && |digest| == 32 && timestamp <= U64_MAX
    && n == Join(if z.None? then Tail(digest, timestamp) else Join(z.value, Tail(digest, timestamp)), m)
  }

  ghost predicate Ambiguous(n: string, m: string) {
    exists z, digest, timestamp :: ReadsAs(n, m, z, digest, timestamp)
  }

  /** With nonces from `valid` the payload determines the request, whatever the path. */
  ghost predicate BindsWith(valid: string -> bool) {
    forall a, b ::
      WellFormed(a) && WellFormed(b) && Bars(a.verb) == Bars(b.verb) && valid(a.nonce) && valid(b.nonce) ==>
      CanonicalPayload(a) == CanonicalPayload(b) ==> SameRequest(a, b)
  }

  function Before(r: Signed): string {
    Join(Join(Join(Upper(r.verb), r.path), Hex(r.digest)), Print(r.timestamp))
  }

  /** An ambiguous pair of nonces gives two requests with one payload. */
  lemma AmbiguousCollides(n: string, m: string, z: Option<string>, digest: Bytes, timestamp: nat, r: Signed) returns (b: Signed)
    requires ReadsAs(n, m, z, digest, timestamp) && r.nonce == n
    ensures WellFormed(b) && b.verb == r.verb && b.nonce == m
    ensures CanonicalPayload(r) == CanonicalPayload(b) && !SameRequest(r, b)
  {
    var inner := Join(Join(r.path, Hex(r.digest)), Print(r.timestamp));
    var path := if z.None? then inner else Join(inner, z.value);
    b := Signed(r.verb, path, digest, timestamp, m);
    var v, h, t := Upper(r.verb), Hex(digest), Print(timestamp);
    JoinAssociates(v, Join(r.path, Hex(r.digest)), Print(r.timestamp));
    JoinAssociates(v, r.path, Hex(r.digest));
    assert Before(r) == Join(v, inner);
    if z.Some? {
      JoinAssociates(v, inner, z.value);
      JoinAssociates(Before(r), z.value, Tail(digest, timestamp));
    }
    var x := if z.None? then Tail(digest, timestamp) else Join(z.value, Tail(digest, timestamp));
    JoinAssociates(Before(r), x, m);
    JoinAssociates(Join(v, path), h, t);
    assert |n| > |m|;
  }

  /** Conversely two requests with one payload but nonces of different bar counts are such a pair. */
  lemma CollisionIsAmbiguous(a: Signed, b: Signed)
    requires WellFormed(a) && WellFormed(b) && Bars(a.verb) == Bars(b.verb)
    requires CanonicalPayload(a) == CanonicalPayload(b) && Bars(a.nonce) > Bars(b.nonce)
    ensures Ambiguous(a.nonce, b.nonce)
  {
    var x, y := SplitAt(a.nonce, Bars(b.nonce));
    JoinAssociates(Before(a), x, y);
    SplitRight(Join(Before(a), x), y, Before(b), b.nonce);
    var z := PeelTail(a, b, x);
    assert ReadsAs(a.nonce, b.nonce, z, b.digest, b.timestamp);
  }

  /** What precedes the shorter nonce inside the longer one ends in the other request's tail. */
  lemma PeelTail(a: Signed, b: Signed, x: string) returns (z: Option<string>)
    requires WellFormed(a) && WellFormed(b) && Join(Before(a), x) == Before(b)
    ensures x == if z.None? then Tail(b.digest, b.timestamp) else Join(z.value, Tail(b.digest, b.timestamp))
  {
    var head, h, t := Join(Upper(b.verb), b.path), Hex(b.digest), Print(b.timestamp);
    PrintNoBars(b.timestamp);
    HexNoBars(b.digest);
    TimestampIsNoDigest(a, b, x);
    var x1, x2 := SplitAt(x, 0);
    JoinAssociates(Before(a), x1, x2);
    SplitRight(Join(Before(a), x1), x2, Join(head, h), t);
    if Bars(x1) == 0 {
      SplitRight(Before(a), x1, head, h);
      z := None;
    } else {
      var x3, x4 := SplitAt(x1, 0);
      JoinAssociates(Before(a), x3, x4);
      SplitRight(Join(Before(a), x3), x4, head, h);
      JoinAssociates(x3, h, t);
      z := Some(x3);
    }
  }

  /** A timestamp is too short to be read as a digest. */
  lemma TimestampIsNoDigest(a: Signed, b: Signed, x: string)
    requires WellFormed(a) && WellFormed(b) && Join(Before(a), x) == Before(b)
    ensures Bars(x) > 0
  {
    if Bars(x) == 0 {
      var head, h := Join(Upper(b.verb), b.path), Hex(b.digest);
      PrintNoBars(b.timestamp);
      SplitRight(Before(a), x, Join(head, h), Print(b.timestamp));
      PrintNoBars(a.timestamp);
      HexNoBars(b.digest);
      SplitRight(Join(Join(Upper(a.verb), a.path), Hex(a.digest)), Print(a.timestamp), head, h);
      HexLength(b.digest);
      PrintShort(a.timestamp);
    }
  }

  /**
   The payload binds requests with nonces from a given set if and only if no nonce of the set is
   another one preceded by something that ends in a digest and a timestamp.
   */
  lemma BindsExactly(valid: string -> bool)
    ensures BindsWith(valid) <==> forall n, m :: valid(n) && valid(m) ==> !Ambiguous(n, m)
  {
    if forall n, m :: valid(n) && valid(m) ==> !Ambiguous(n, m) {
      forall a, b | WellFormed(a) && WellFormed(b) && Bars(a.verb) == Bars(b.verb) && valid(a.nonce) && valid(b.nonce)
        && CanonicalPayload(a) == CanonicalPayload(b)
        ensures SameRequest(a, b)
      {
        if Bars(a.nonce) > Bars(b.nonce) {
          CollisionIsAmbiguous(a, b);
        } else if Bars(a.nonce) < Bars(b.nonce) {
          CollisionIsAmbiguous(b, a);
        } else {
          PayloadBindsRequest(a, b);
        }
      }
    } else {
      var n, m :| valid(n) && valid(m) && Ambiguous(n, m);
      var z, digest, timestamp :| ReadsAs(n, m, z, digest, timestamp);
      var r := Signed("", "", digest, timestamp, n);
      var b := AmbiguousCollides(n, m, z, digest, timestamp, r);
    }
  }

  // ---------- headers ----------

  datatype AuthHeaders = AuthHeaders(account: string, timestamp: nat, nonce: string, signature: string)

  datatype HeaderError = Missing(header: string) | Malformed(header: string)

  const HEADER_ACCOUNT := "x-digicash-account"
  const HEADER_TIMESTAMP := "x-digicash-timestamp"
  const HEADER_NONCE := "x-digicash-nonce"
  const HEADER_SIGNATURE := "x-digicash-signature"

  function ToPairs(h: AuthHeaders): seq<(string, string)> {
    [(HEADER_ACCOUNT, h.account),
     (HEADER_TIMESTAMP, Print(h.timestamp)),
     (HEADER_NONCE, h.nonce),
     (HEADER_SIGNATURE, h.signature)]
  }

  /** The value of the first header with this name. */
  function Lookup(pairs: seq<(string, string)>, name: string): Option<string> {
    if pairs == [] then None
    else if pairs[0].0 == name then Some(pairs[0].1)
    else Lookup(pairs[1..], name)
  }

  function Require(lookup: string -> Option<string>, header: string): Result<string, HeaderError> {
    match lookup(header)
    case None => Err(Missing(header))
    case Some(v) => if v == "" then Err(Missing(header)) else Ok(v)
  }

  /** Parse the metadata from a header lookup; the first bad header is reported. */
  function FromLookup(lookup: string -> Option<string>): Result<AuthHeaders, HeaderError> {
    match Require(lookup, HEADER_ACCOUNT)
    case Err(e) => Err(e)
    case Ok(account) =>
      match Require(lookup, HEADER_TIMESTAMP)
      case Err(e) => Err(e)
      case Ok(text) =>
        match ParseU64(text)
        case None => Err(Malformed(HEADER_TIMESTAMP))
        case Some(timestamp) =>
          match Require(lookup, HEADER_NONCE)
          case Err(e) => Err(e)
          case Ok(nonce) =>
            match Require(lookup, HEADER_SIGNATURE)
            case Err(e) => Err(e)
            case Ok(signature) => Ok(AuthHeaders(account, timestamp, nonce, signature))
  }

  lemma PairsLookup(h: AuthHeaders)
    ensures |ToPairs(h)| == 4
    ensures ToPairs(h)[0].0 == "x-digicash-account" && ToPairs(h)[1].0 == "x-digicash-timestamp"
    ensures ToPairs(h)[2].0 == "x-digicash-nonce" && ToPairs(h)[3].0 == "x-digicash-signature"
    ensures Lookup(ToPairs(h), HEADER_ACCOUNT) == Some(h.account)
    ensures Lookup(ToPairs(h), HEADER_TIMESTAMP) == Some(Print(h.timestamp))
    ensures Lookup(ToPairs(h), HEADER_NONCE) == Some(h.nonce)
    ensures Lookup(ToPairs(h), HEADER_SIGNATURE) == Some(h.signature)
  {
    var p := ToPairs(h);
    assert HEADER_TIMESTAMP[11] != HEADER_SIGNATURE[11];
    assert p[1..][1..] == p[2..] && p[2..][1..] == p[3..];
    assert forall name :: name != HEADER_ACCOUNT && name != HEADER_TIMESTAMP ==>
        Lookup(p, name) == Lookup(p[1..], name) && Lookup(p[1..], name) == Lookup(p[2..], name);
    assert Lookup(p[2..], HEADER_SIGNATURE) == Lookup(p[3..], HEADER_SIGNATURE);
  }

  /** The header is there and not empty. */
  predicate Given(lookup: string -> Option<string>, header: string) {
    lookup(header).Some? && lookup(header).value != ""
  }

  /** Parsing succeeds exactly when all four are given and the timestamp is a number; the first that fails is named. */
  lemma HeadersDecided(lookup: string -> Option<string>)
    ensures var account, timestamp := "x-digicash-account", "x-digicash-timestamp";
            var nonce, signature := "x-digicash-nonce", "x-digicash-signature";
            var parsed := if Given(lookup, timestamp) then ParseU64(lookup(timestamp).value) else None;
            && (forall h :: FromLookup(lookup) == Ok(h) <==>
                  && Given(lookup, account) && Given(lookup, nonce) && Given(lookup, signature)
                  && parsed == Some(h.timestamp)
                  && (h.account, h.nonce, h.signature) == (lookup(account).value, lookup(nonce).value, lookup(signature).value))
            && (FromLookup(lookup) == Err(Malformed(timestamp)) <==>
                  Given(lookup, account) && Given(lookup, timestamp) && parsed.None?)
            && (forall name :: FromLookup(lookup) == Err(Missing(name)) <==>
                  && name in {account, timestamp, nonce, signature} && !Given(lookup, name)
                  && (name != account ==> Given(lookup, account))
                  && (name in {nonce, signature} ==> parsed.Some?)
                  && (name == signature ==> Given(lookup, nonce)))
  {
    assert HEADER_TIMESTAMP[11] == 't' && HEADER_ACCOUNT[11] == 'a' && HEADER_NONCE[11] == 'n' && HEADER_SIGNATURE[11] == 's';
  }

  /**
   Headers sent are the headers received exactly when no text field is empty; otherwise the
   first empty one is reported missing.
   */
  lemma HeadersRoundTrip(h: AuthHeaders, lookup: string -> Option<string>)
    requires h.timestamp <= U64_MAX
    requires forall name :: lookup(name) == Lookup(ToPairs(h), name)
    ensures FromLookup(lookup) ==
            if h.account == "" then Err(Missing(HEADER_ACCOUNT))
            else if h.nonce == "" then Err(Missing(HEADER_NONCE))
            else if h.signature == "" then Err(Missing(HEADER_SIGNATURE))
            else Ok(h)
  {
    PairsLookup(h);
    ParsePrint(h.timestamp);
    PrintDigits(h.timestamp);
  }

  /** Whatever a server parses prints back to headers that parse to the same. */
  lemma ParsedHeadersPrint(lookup: string -> Option<string>, again: string -> Option<string>, h: AuthHeaders)
    requires FromLookup(lookup) == Ok(h)
    requires forall name :: again(name) == Lookup(ToPairs(h), name)
    ensures FromLookup(again) == Ok(h)
  {
    HeadersRoundTrip(h, again);
  }
}
