/**
 * The exceptions the registry code raises or lets escape, as values. A
 * Python crash (an exception nobody catches, `log.fatal`'s exit) is a
 * `Failure` carrying one of these; the message texts are not modelled.
 */
module Errors {

  datatype Error =
    | TypeError            // a value of the wrong JSON type reached `Version(...)`
    | ValueError           // `latest_version` of a module without versions, `int()` of a non-numeral
    | AssertionError       // a failed `assert`, e.g. comparing a `Version` with `None`
    | RuntimeError         // a release that is already in the metadata
    | Fatal                // `log.fatal`: the run stops with exit status 1
    | FileMissing          // opening a file that does not exist
    | JsonDecodeError      // a file that does not hold JSON
    | AttributeError       // `.get` on decoded JSON that is not an object
    | KeyError             // `d[key]` on an object without that key
    | ApiError(status: int) // a GitHub API error that is re-raised
    | NetworkError         // any other exception escaping a GitHub call
}
