/** Link-state advertisements and the slotted database that holds them. */
module OspfTypes {
  import opened NetTypes

  const LSDB_SIZE: nat := 256
  const MAX_LSA_LINKS: nat := 4
  const LSA_TYPE_ROUTER: byte := 1
  const LINK_P2P: byte := 1

  datatype Link = Link(linkId: u32, linkData: u32, kind: byte, numTos: byte, metric: u16)

  /** `OspfLsaEntry`; `links` holds the `link_count` links in use. */
  datatype Lsa = Lsa(lsaId: u32, advRouter: u32, seqNum: u32, checksum: u16, lsaType: byte, links: seq<Link>)

  datatype LsaKey = LsaKey(lsaId: u32, advRouter: u32)

  function KeyOf(lsa: Lsa): LsaKey {
    LsaKey(lsa.lsaId, lsa.advRouter)
  }

  /** Two advertisements are instances of one exactly when both the id and the advertising router agree. */
  lemma SameKeyIff(a: Lsa, b: Lsa)
    ensures KeyOf(a) == KeyOf(b) <==> a.lsaId == b.lsaId && a.advRouter == b.advRouter
  {
  }

  predicate WellFormedLsa(lsa: Lsa) {
    |lsa.links| <= MAX_LSA_LINKS
  }

  /** Every used slot has a link count in range. */
  predicate WellFormedDb(db: seq<Option<Lsa>>) {
    forall i :: 0 <= i < |db| && db[i].Some? ==> WellFormedLsa(db[i].value)
  }

  datatype NbrState = Down | Attempt | Init | TwoWay | ExStart | Exchange | Loading | Full

  datatype Neighbor = Neighbor(valid: bool, routerId: u32, ipAddr: u32, state: NbrState, lastHello: nat, iface: Iface)
}
