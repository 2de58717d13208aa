/** Record types and limits shared by the DNS modules. */
module DnsConst {
  const TYPE_A: nat := 1
  const TYPE_NS: nat := 2
  const TYPE_CNAME: nat := 5
  const TYPE_SOA: nat := 6
  const TYPE_PTR: nat := 12
  const TYPE_MX: nat := 15

  const SIXTY_DAYS: nat := 86400 * 60
}
