/** The certificate-error decision of the application. */
module Certificates {
  import opened Wrappers

  /** What the handler does: whether it suppresses the default rejection, and the trust it reports. */
  datatype CertificateVerdict = CertificateVerdict(preventDefault: bool, trusted: bool)

  /** Accept only when `NODE_ENV` is exactly `development`; otherwise fail closed. */
  function OnCertificateError(nodeEnv: Option<string>): (v: CertificateVerdict)
    ensures v.trusted <==> nodeEnv == Some("development")
    ensures v.preventDefault <==> v.trusted
  {
    if nodeEnv == Some("development") then CertificateVerdict(true, true) else CertificateVerdict(false, false)
  }
}
