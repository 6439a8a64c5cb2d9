/**
 * Jabber identifiers as the roster code uses them: compared for equality,
 * reduced to their bare form and printed.  Parsing a string into a JID is
 * left to the caller of the decoder (it is passed in as a function).
 */
module Jids {
  import opened Wrappers

  /** `local@domain/resource`, with optional local and resource parts. */
  datatype Jid = Jid(local: Option<string>, domain: string, resource: Option<string>) {

    /** The JID without its resource part. */
    function Bare(): (b: Jid)
      ensures b.local == local && b.domain == domain && b.resource == None
    {
      this.(resource := None)
    }

    predicate IsBare() {
      resource == None
    }

    /** The textual form written into the `jid` attribute of an outgoing item. */
    function ToString(): string {
      (match local case Some(l) => l + "@" case None => "")
      + domain
      + (match resource case Some(r) => "/" + r case None => "")
    }
  }

  lemma BareIsIdempotent(j: Jid)
    ensures j.Bare().Bare() == j.Bare() && j.Bare().IsBare()
    ensures j.IsBare() <==> j.Bare() == j
  {
  }
}
