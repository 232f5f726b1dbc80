/** A certificate authority that issues certificates over time, and what holds of every certificate it returns. */
module CertificateAuthority {
  import opened Bytes
  import T = Asn1Time

  newtype uint64 = x: int | 0 <= x < 0x1_0000_0000_0000_0000

  const LONG_MAX: uint64 := 0x7fff_ffff_ffff_ffff

  type Name = seq<byte>
  type PublicKey = seq<byte>
  type PrivateKey = seq<byte>
  type Extension = seq<byte>

  datatype Certificate = Certificate(
    subject: Name,
    publicKey: PublicKey,
    issuer: Name,
    serial: uint64,
    notBefore: T.Instant,
    notAfter: T.Instant,
    extensions: seq<Extension>,
    signature: seq<byte>)

  datatype Request = Request(subject: Name, publicKey: PublicKey)

  datatype SigningParameters = SigningParameters(
    notBefore: Option<T.Instant>, certificateValidity: T.int64, extensions: seq<Extension>)

  /** Key pairs, signatures, and the checks of X509_verify_cert that do not depend on the time. */
  datatype World = World(
    publicOf: PrivateKey -> PublicKey,
    sign: (PrivateKey, Certificate) -> seq<byte>,
    chains: (Certificate, Certificate) -> bool)

  datatype Error =
    | KeyMismatch | SerialOutOfRange | TimeOutOfRange | ValidBeforeIssuer | OutlivesIssuer | NotVerifiable

  // ---- verification ----

  /** The validity window, whose end is excluded, as OpenSSL compares it (section 4.1.2.5 of RFC 5280). */
  predicate InWindow(c: Certificate, t: T.Instant) {
    c.notBefore <= t < c.notAfter
  }

  /** `verify` against the issuer as the only trusted certificate, at a check time. */
  predicate VerifiesAt(w: World, root: Certificate, c: Certificate, t: T.Instant) {
    w.chains(root, c) && InWindow(root, t) && InWindow(c, t)
  }

  // ---- issuing ----

  /** `notBeforeAsn1`: one second before now unless set. */
  function NotBefore(p: SigningParameters, now: T.Instant): Option<T.Instant> {
    match p.notBefore
    case Some(t) => Some(t)
    case None => T.Sum(now, -1)
  }

  function Unsigned(root: Certificate, serial: uint64, p: SigningParameters, r: Request, from: T.Instant, to: T.Instant)
    : Certificate
  {
    Certificate(r.subject, r.publicKey, root.subject, serial, from, to, p.extensions, [])
  }

  /** What `_signCSR` returns or throws; `now` is the time at which it is called. */
  function SignCsr(
      w: World, root: Certificate, key: PrivateKey, serial: uint64, p: SigningParameters, r: Request, now: T.Instant)
    : Result<Certificate, Error>
  {
    if serial > LONG_MAX then Err(SerialOutOfRange)
    else
      match NotBefore(p, now)
      case None => Err(TimeOutOfRange)
      case Some(from) =>
        match T.Sum(from, p.certificateValidity as int)
        case None => Err(TimeOutOfRange)
        case Some(to) =>
          var tbs := Unsigned(root, serial, p, r, from, to);
          var cert := tbs.(signature := w.sign(key, tbs));
          if root.notBefore > cert.notBefore then Err(ValidBeforeIssuer)
          else if root.notAfter < cert.notAfter then Err(OutlivesIssuer)
          else if !VerifiesAt(w, root, cert, cert.notBefore) then Err(NotVerifiable)
          else
            match T.Sum(cert.notAfter, -1)
            case None => Err(TimeOutOfRange)
            case Some(last) => if VerifiesAt(w, root, cert, last) then Ok(cert) else Err(NotVerifiable)
  }

  /**
   * What a returned certificate says: subject and key of the request, the authority as issuer, the serial, the
   * dates that were asked for, the extensions, and the authority's signature over all of it.
   */
  lemma IssuesWhatWasAsked(
      w: World, root: Certificate, key: PrivateKey, serial: uint64, p: SigningParameters, r: Request, now: T.Instant)
    ensures var issued := SignCsr(w, root, key, serial, p, r, now);
            issued.Ok? ==>
              var c := issued.value;
              && c.subject == r.subject && c.publicKey == r.publicKey && c.issuer == root.subject
              && c.serial == serial && c.extensions == p.extensions
              && c.notBefore == (if p.notBefore.Some? then p.notBefore.value else now - 1)
              && c.notAfter == c.notBefore + p.certificateValidity as int
              && c.signature == w.sign(key, c.(signature := []))
  {
  }

  /**
   * Checking the two endpoints is checking every instant: a returned certificate verifies against its issuer
   * throughout its own, non-empty window, which lies inside the issuer's.
   */
  lemma ValidAtEveryInstant(
      w: World, root: Certificate, key: PrivateKey, serial: uint64, p: SigningParameters, r: Request, now: T.Instant)
    ensures var issued := SignCsr(w, root, key, serial, p, r, now);
            issued.Ok? ==>
              var c := issued.value;
              && root.notBefore <= c.notBefore < c.notAfter <= root.notAfter && w.chains(root, c)
              && forall t: T.Instant :: c.notBefore <= t < c.notAfter ==> VerifiesAt(w, root, c, t)
  {
  }

  /** A certificate verifies at an instant exactly if it chains and both windows, ends excluded, hold the instant. */
  lemma VerifiesExactly(w: World, root: Certificate, c: Certificate, t: T.Instant)
    ensures VerifiesAt(w, root, c, t) <==>
            && w.chains(root, c)
            && root.notBefore <= t < root.notAfter && c.notBefore <= t < c.notAfter
  {
  }

  /** The certificate that a request asks for, with given dates and a signature over all of it. */
  predicate AskedFor(
    w: World, root: Certificate, key: PrivateKey, serial: uint64, p: SigningParameters, r: Request, c: Certificate)
  {
    && c.subject == r.subject && c.publicKey == r.publicKey && c.issuer == root.subject
    && c.serial == serial && c.extensions == p.extensions && c.signature == w.sign(key, c.(signature := []))
  }

  /**
   * Exactly which requests are answered: the serial is at most LONG_MAX, the dates exist, the window is non-empty,
   * inside the issuer's and does not end in its first instant of the year 1900, and the certificate chains.
   */
  lemma IssuesExactly(
      w: World, root: Certificate, key: PrivateKey, serial: uint64, p: SigningParameters, r: Request, now: T.Instant,
      c: Certificate)
    ensures SignCsr(w, root, key, serial, p, r, now) == Ok(c) <==>
            && serial <= 0x7fff_ffff_ffff_ffff
            && AskedFor(w, root, key, serial, p, r, c)
            && (if p.notBefore.Some? then c.notBefore == p.notBefore.value
                else c.notBefore == now - 1 && T.YEAR_1900 <= c.notBefore)
            && c.notAfter == c.notBefore + p.certificateValidity as int && T.YEAR_1900 < c.notAfter
            && root.notBefore <= c.notBefore < c.notAfter <= root.notAfter
            && w.chains(root, c)
  {
  }

  /** Which exception a request meets: the checks in order, and the reason that each stands for. */
  lemma RefusesExactly(
      w: World, root: Certificate, key: PrivateKey, serial: uint64, p: SigningParameters, r: Request, now: T.Instant)
    ensures var issued := SignCsr(w, root, key, serial, p, r, now);
            && (issued == Err(SerialOutOfRange) <==> serial > 0x7fff_ffff_ffff_ffff)
            && (issued == Err(ValidBeforeIssuer) ==>
                  root.notBefore > if p.notBefore.Some? then p.notBefore.value else now - 1)
            && (issued == Err(OutlivesIssuer) ==>
                  var from := if p.notBefore.Some? then p.notBefore.value else now - 1;
                  root.notBefore <= from && root.notAfter < from + p.certificateValidity as int)
            && (issued != Err(KeyMismatch))
  {
  }

  class Authority {
    const w: World
    const defaultSignParams: SigningParameters
    const rootCert: Certificate
    const privateKey: PrivateKey
    var nextSerialNumber: uint64

    constructor (w: World, p: SigningParameters, nextSerialNumber: uint64, root: Certificate, key: PrivateKey)
      requires w.publicOf(key) == root.publicKey
      ensures this.w == w && defaultSignParams == p && rootCert == root && privateKey == key
      ensures this.nextSerialNumber == nextSerialNumber
    {
      this.w, defaultSignParams, rootCert, privateKey := w, p, root, key;
      this.nextSerialNumber := nextSerialNumber;
    }

    /** The constructor of the original, which throws for a key that is not the certificate's. */
    static method Create(w: World, p: SigningParameters, nextSerialNumber: uint64, root: Certificate, key: PrivateKey)
      returns (r: Result<Authority, Error>)
      ensures r.Ok? <==> w.publicOf(key) == root.publicKey
      ensures r.Ok? ==>
                && fresh(r.value) && r.value.nextSerialNumber == nextSerialNumber && r.value.rootCert == root
                && r.value.w == w && r.value.defaultSignParams == p && r.value.privateKey == key
    {
      if w.publicOf(key) != root.publicKey {
        return Err(KeyMismatch);
      }
      var ca := new Authority(w, p, nextSerialNumber, root, key);
      r := Ok(ca);
    }

    /** `_signCertificate`: dates, extensions one by one, then the signature. */
    method SignCertificate(cert: Certificate, p: SigningParameters, now: T.Instant) returns (r: Result<Certificate, Error>)
      requires cert.extensions == [] && cert.signature == []
      ensures match NotBefore(p, now)
              case None => r == Err(TimeOutOfRange)
              case Some(from) =>
                match T.Sum(from, p.certificateValidity as int)
                case None => r == Err(TimeOutOfRange)
                case Some(to) =>
                  var tbs := cert.(notBefore := from, notAfter := to, extensions := p.extensions);
                  r == Ok(tbs.(signature := w.sign(privateKey, tbs)))
    {
      var from: T.Instant;
      if p.notBefore.Some? {
        from := p.notBefore.value;
      } else {
        var earlier := T.Subtract(now, 1);
        if earlier.Err? {
          return Err(TimeOutOfRange);
        }
        from := earlier.value;
      }
      var to := T.Add(from, p.certificateValidity);
      if to.Err? {
        return Err(TimeOutOfRange);
      }
      var tbs := cert.(notBefore := from, notAfter := to.value);
      for i := 0 to |p.extensions|
        invariant tbs == cert.(notBefore := from, notAfter := to.value, extensions := p.extensions[..i])
      {
        tbs := tbs.(extensions := tbs.extensions + [p.extensions[i]]);
      }
      assert p.extensions[..|p.extensions|] == p.extensions;
      r := Ok(tbs.(signature := w.sign(privateKey, tbs)));
    }

    /** `_signCSR`: the serial number is used up only by a certificate that is returned. */
    method SignCSR(csr: Request, now: T.Instant) returns (r: Result<Certificate, Error>)
      modifies this
      ensures r == SignCsr(w, rootCert, privateKey, old(nextSerialNumber), defaultSignParams, csr, now)
      ensures nextSerialNumber as int == old(nextSerialNumber) as int + if r.Ok? then 1 else 0
    {
      if nextSerialNumber > LONG_MAX {
        return Err(SerialOutOfRange);
      }
      var newCertificate := Certificate(csr.subject, csr.publicKey, rootCert.subject, nextSerialNumber, 0, 0, [], []);
      var signed := SignCertificate(newCertificate, defaultSignParams, now);
      if signed.Err? {
        return Err(signed.error);
      }
      var cert := signed.value;
      if T.Gt(rootCert.notBefore, cert.notBefore) {
        return Err(ValidBeforeIssuer);
      }
      if T.Lt(rootCert.notAfter, cert.notAfter) {
        return Err(OutlivesIssuer);
      }
      var first := T.ToTimeT(cert.notBefore);
      if !VerifiesAt(w, rootCert, cert, first.value as int) {
        return Err(NotVerifiable);
      }
      var last := T.Subtract(cert.notAfter, 1);
      if last.Err? {
        return Err(TimeOutOfRange);
      }
      if !VerifiesAt(w, rootCert, cert, last.value) {
        return Err(NotVerifiable);
      }
      nextSerialNumber := nextSerialNumber + 1;
      r := Ok(cert);
    }
  }

  // ---- runs of one authority ----

  datatype Call = Call(csr: Request, now: T.Instant)

  /** The authority's constants, its counter, and the certificates it has returned. */
  datatype Run = Run(
    root: Certificate, key: PrivateKey, params: SigningParameters, next: uint64, issued: seq<Certificate>)

  function Perform(w: World, r: Run, c: Call): Run {
    match SignCsr(w, r.root, r.key, r.next, r.params, c.csr, c.now)
    case Err(_) => r
    case Ok(cert) => r.(next := r.next + 1, issued := r.issued + [cert])
  }

  function PerformAll(w: World, r: Run, calls: seq<Call>): Run
    decreases |calls|
  {
    if calls == [] then r else PerformAll(w, Perform(w, r, calls[0]), calls[1..])
  }

  /** The serials issued so far run without gaps from `first` to the counter, which stays in range. */
  predicate Consecutive(r: Run, first: uint64) {
    && r.next as int == first as int + |r.issued|
    && (r.issued == [] || r.next <= LONG_MAX + 1)
    && forall i :: 0 <= i < |r.issued| ==> r.issued[i].serial as int == first as int + i
  }

  lemma PerformKeepsConsecutive(w: World, r: Run, c: Call, first: uint64)
    requires Consecutive(r, first)
    ensures Consecutive(Perform(w, r, c), first)
  {
  }

  lemma {:induction false} RunKeepsConsecutive(w: World, r: Run, calls: seq<Call>, first: uint64)
    requires Consecutive(r, first)
    ensures Consecutive(PerformAll(w, r, calls), first)
    decreases |calls|
  {
    if calls != [] {
      PerformKeepsConsecutive(w, r, calls[0], first);
      RunKeepsConsecutive(w, Perform(w, r, calls[0]), calls[1..], first);
    }
  }

  /** The certificate was asked for by one of the calls. */
  ghost predicate OnRequest(w: World, r: Run, calls: seq<Call>, c: Certificate) {
    exists k :: 0 <= k < |calls| && AskedFor(w, r.root, r.key, c.serial, r.params, calls[k].csr, c)
  }

  /** Every certificate that a run returns is the one that some of its calls asked for. */
  lemma {:induction false} IssuedOnRequest(w: World, r: Run, calls: seq<Call>, i: nat)
    requires |r.issued| <= i < |PerformAll(w, r, calls).issued|
    ensures OnRequest(w, r, calls, PerformAll(w, r, calls).issued[i])
    decreases |calls|
  {
    var r1 := Perform(w, r, calls[0]);
    RunExtends(w, r1, calls[1..]);
    if i < |r1.issued| {
      IssuesWhatWasAsked(w, r.root, r.key, r.next, r.params, calls[0].csr, calls[0].now);
      assert AskedFor(w, r.root, r.key, r1.issued[i].serial, r.params, calls[0].csr, r1.issued[i]);
    } else {
      IssuedOnRequest(w, r1, calls[1..], i);
      var c := PerformAll(w, r, calls).issued[i];
      var k :| 0 <= k < |calls[1..]| && AskedFor(w, r1.root, r1.key, c.serial, r1.params, calls[1..][k].csr, c);
      assert calls[k + 1] == calls[1..][k];
    }
  }

  lemma {:induction false} RunExtends(w: World, r: Run, calls: seq<Call>)
    ensures r.issued <= PerformAll(w, r, calls).issued
    decreases |calls|
  {
    if calls != [] {
      RunExtends(w, Perform(w, r, calls[0]), calls[1..]);
    }
  }

  /**
   * Whatever mix of requests succeeds and fails, the certificates an authority returns are numbered consecutively
   * from its initial serial, so no two are numbered alike, and the counter never wraps.
   */
  lemma SerialsOverEveryRun(w: World, r: Run, calls: seq<Call>)
    requires r.issued == []
    ensures var r' := PerformAll(w, r, calls);
            && Consecutive(r', r.next)
            && (forall i, j :: 0 <= i < j < |r'.issued| ==> r'.issued[i].serial != r'.issued[j].serial)
            && (r.next > LONG_MAX ==> r'.issued == [])
  {
    RunKeepsConsecutive(w, r, calls, r.next);
  }

  // ---- authorities built on issued certificates ----

  /** Some authority with this certificate returned that one. */
  ghost predicate Issued(w: World, issuer: Certificate, c: Certificate) {
    exists key: PrivateKey, serial: uint64, p: SigningParameters, r: Request, now: T.Instant ::
      SignCsr(w, issuer, key, serial, p, r, now) == Ok(c)
  }

  /** Each certificate of a chain was issued by an authority built on the one before it. */
  ghost predicate IssuedInTurn(w: World, chain: seq<Certificate>) {
    forall i :: 0 <= i < |chain| - 1 ==> Issued(w, chain[i], chain[i + 1])
  }

  lemma IssuedIsWithin(w: World, issuer: Certificate, c: Certificate)
    requires Issued(w, issuer, c)
    ensures issuer.notBefore <= c.notBefore < c.notAfter <= issuer.notAfter
    ensures forall t: T.Instant :: InWindow(c, t) ==> VerifiesAt(w, issuer, c, t)
  {
    var key: PrivateKey, serial: uint64, p: SigningParameters, r: Request, now: T.Instant :|
      SignCsr(w, issuer, key, serial, p, r, now) == Ok(c);
    ValidAtEveryInstant(w, issuer, key, serial, p, r, now);
  }

  /** Windows nest along a chain of any depth. */
  lemma {:induction false} WindowsNest(w: World, chain: seq<Certificate>, i: nat, j: nat)
    requires IssuedInTurn(w, chain) && i <= j < |chain|
    ensures chain[i].notBefore <= chain[j].notBefore && chain[j].notAfter <= chain[i].notAfter
    decreases j - i
  {
    if i < j {
      WindowsNest(w, chain, i, j - 1);
      assert Issued(w, chain[j - 1], chain[j - 1 + 1]);
      IssuedIsWithin(w, chain[j - 1], chain[j]);
    }
  }

  /** At every instant of a leaf's window, every link of its chain verifies. */
  lemma WholeChainVerifies(w: World, chain: seq<Certificate>, t: T.Instant, i: nat)
    requires IssuedInTurn(w, chain) && i + 1 < |chain|
    requires chain[|chain| - 1].notBefore <= t < chain[|chain| - 1].notAfter
    ensures VerifiesAt(w, chain[i], chain[i + 1], t)
  {
    WindowsNest(w, chain, i + 1, |chain| - 1);
    assert Issued(w, chain[i], chain[i + 1]);
    IssuedIsWithin(w, chain[i], chain[i + 1]);
  }
}
