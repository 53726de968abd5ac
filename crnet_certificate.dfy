/** CrnetCertificate: a certificate handle of the crnet network library, with
    its DER encoding fetched from the library at most once, its status flags
    and its validity dates.

    The library itself is foreign code. CrnetLibrary stands in for the two
    calls the certificate makes: it answers a DER fetch from a table of the
    encodings it can produce (success, 0, with the bytes) or fails (-1, no
    bytes), and it records every fetch and every release it is asked for. */
module Crnet {

  import opened Wrappers

  /** C `char`, one byte. */
  type Byte = bv8

  newtype int64 = x: int | -0x8000_0000_0000_0000 <= x < 0x8000_0000_0000_0000

  /** An opaque `crnet_ssl_certificate*`, identified by its address. */
  datatype CertificateHandle = CertificateHandle(address: nat)

  /** `CRNET_CERT_STATUS_SHA1_SIGNATURE_PRESENT` of crnet.h: bit 12. */
  const CertStatusSha1SignaturePresent: bv32 := 1 << 12

  /** What `crnet_get_der_encoded_certificate` returns on success and on
      failure. */
  const FetchSucceeded: int := 0
  const FetchFailed: int := -1

  class CrnetLibrary {
    /** The handles whose DER encoding the library can produce. */
    var encodings: map<CertificateHandle, seq<Byte>>
    /** Every handle a DER fetch was asked for, in order. */
    var fetched: seq<CertificateHandle>
    /** Every handle released, in order. */
    var freed: seq<CertificateHandle>

    constructor (encodings: map<CertificateHandle, seq<Byte>>)
      ensures this.encodings == encodings && fetched == [] && freed == []
    {
      this.encodings := encodings;
      fetched := [];
      freed := [];
    }

    /** `crnet_get_der_encoded_certificate`: 0 and the bytes, or -1 and none. */
    method GetDerEncodedCertificate(cert: CertificateHandle) returns (result: int, bytes: seq<Byte>)
      modifies this
      ensures fetched == old(fetched) + [cert] && encodings == old(encodings) && freed == old(freed)
      ensures cert in encodings ==> result == FetchSucceeded && bytes == encodings[cert]
      ensures cert !in encodings ==> result == FetchFailed && bytes == []
    {
      fetched := fetched + [cert];
      if cert in encodings {
        result, bytes := FetchSucceeded, encodings[cert];
      } else {
        result, bytes := FetchFailed, [];
      }
    }

    /** `crnet_free_certificate`. */
    method FreeCertificate(cert: CertificateHandle)
      modifies this
      ensures freed == old(freed) + [cert] && encodings == old(encodings) && fetched == old(fetched)
    {
      freed := freed + [cert];
    }
  }

  /** `containsNonRootSHA1SignedCertificate` on a status word: whether bit 12
      is set, whatever the other bits are. */
  function ContainsNonRootSha1SignedCertificate(status: bv32): (r: bool)
    ensures r <==> (status >> 12) & 1 == 1
    ensures r <==> (status | CertStatusSha1SignaturePresent) == status
  {
    status & CertStatusSha1SignaturePresent != 0
  }

  class CrnetCertificate {
    var certificate: Option<CertificateHandle>
    var derEncodedCert: seq<Byte>
    var retrievedDer: bool
    /** The `int` status, as its 32 bits. */
    var status: bv32
    /** Milliseconds since the epoch; 0 means invalid or not present. */
    var validStart: int64
    var validExpiry: int64

    /** Until the bytes are retrieved or set, the buffer is empty. */
    predicate Valid()
      reads this
    {
      !retrievedDer ==> derEncodedCert == []
    }

    /** `create(certificate)`: nothing retrieved yet and status 0. The
        validity dates are left uninitialised. */
    constructor (certificate: Option<CertificateHandle>)
      ensures Valid()
      ensures this.certificate == certificate && derEncodedCert == [] && !retrievedDer && status == 0
    {
      this.certificate := certificate;
      derEncodedCert := [];
      retrievedDer := false;
      status := 0;
    }

    /** `derEncoded`: the first call with a handle fetches the bytes from the
        library, keeps them on success and, success or not, marks them
        retrieved; every other call leaves everything as it is. */
    method DerEncoded(lib: CrnetLibrary) returns (der: seq<Byte>)
      modifies this, lib
      ensures der == derEncodedCert && (old(Valid()) ==> Valid())
      ensures old(retrievedDer) || old(certificate).None? ==> unchanged(this) && unchanged(lib)
      ensures !old(retrievedDer) && old(certificate).Some? ==>
        var cert := old(certificate).value;
        && retrievedDer && certificate == old(certificate)
        && lib.fetched == old(lib.fetched) + [cert] && lib.freed == old(lib.freed) && lib.encodings == old(lib.encodings)
        && derEncodedCert == old(derEncodedCert) + (if cert in old(lib.encodings) then old(lib.encodings)[cert] else [])
        && status == old(status) && validStart == old(validStart) && validExpiry == old(validExpiry)
    {
      if !retrievedDer && certificate.Some? {
        var result, bytes := lib.GetDerEncodedCertificate(certificate.value);
        if result == FetchSucceeded {
          derEncodedCert := derEncodedCert + bytes;
        }
        retrievedDer := true;
      }
      der := derEncodedCert;
    }

    /** `setDerEncoded`: the given bytes replace the buffer and count as
        retrieved, so no later call fetches. */
    method SetDerEncoded(cert: seq<Byte>)
      modifies this
      ensures Valid() && retrievedDer && derEncodedCert == cert
      ensures certificate == old(certificate) && status == old(status)
      ensures validStart == old(validStart) && validExpiry == old(validExpiry)
    {
      retrievedDer := true;
      derEncodedCert := cert;
    }

    /** `status()`: the word `setStatus` stored last, the same one the SHA-1
        query reads. */
    function Status(): (r: bv32)
      reads this
      ensures r == status
      ensures ContainsNonRootSha1SignedCertificate(r) <==> ContainsNonRootSha1Signed()
    {
      status
    }

    method SetStatus(s: bv32)
      modifies this
      ensures Status() == s
      ensures certificate == old(certificate) && derEncodedCert == old(derEncodedCert) && retrievedDer == old(retrievedDer)
      ensures validStart == old(validStart) && validExpiry == old(validExpiry)
    {
      status := s;
    }

    /** `validStart()`: the date `setValidStart` stored last. */
    function ValidStart(): (r: int64)
      reads this
      ensures r == validStart
    {
      validStart
    }

    /** `validExpiry()`: the date `setValidExpiry` stored last. */
    function ValidExpiry(): (r: int64)
      reads this
      ensures r == validExpiry
    {
      validExpiry
    }

    method SetValidStart(time: int64)
      modifies this
      ensures ValidStart() == time
      ensures certificate == old(certificate) && derEncodedCert == old(derEncodedCert) && retrievedDer == old(retrievedDer)
      ensures status == old(status) && validExpiry == old(validExpiry)
    {
      validStart := time;
    }

    method SetValidExpiry(time: int64)
      modifies this
      ensures ValidExpiry() == time
      ensures certificate == old(certificate) && derEncodedCert == old(derEncodedCert) && retrievedDer == old(retrievedDer)
      ensures status == old(status) && validStart == old(validStart)
    {
      validExpiry := time;
    }

    /** `containsNonRootSHA1SignedCertificate`. */
    function ContainsNonRootSha1Signed(): (r: bool)
      reads this
      ensures r <==> (status >> 12) & 1 == 1
    {
      ContainsNonRootSha1SignedCertificate(status)
    }

    /** The destructor: a handle, if any, is released once and dropped. */
    method Destroy(lib: CrnetLibrary)
      modifies this, lib
      ensures certificate == None
      ensures old(certificate).None? ==> unchanged(this) && unchanged(lib)
      ensures old(certificate).Some? ==>
        lib.freed == old(lib.freed) + [old(certificate).value] && lib.fetched == old(lib.fetched)
        && lib.encodings == old(lib.encodings)
      ensures derEncodedCert == old(derEncodedCert) && retrievedDer == old(retrievedDer) && status == old(status)
      ensures validStart == old(validStart) && validExpiry == old(validExpiry)
    {
      if certificate.Some? {
        lib.FreeCertificate(certificate.value);
        certificate := None;
      }
    }
  }

}
