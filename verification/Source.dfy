/** Membership rows, as every datasource emits them (internal/source/source.go). */
module Source {
  import opened Text

  const PROTOCOL_GUILD := "protocol-guild"
  const GITHUB_ORG := "github-org"
  const MANUAL := "manual"

  datatype Membership = Membership(handle: string, team: string, source: string, org: string, name: string) {
    /** A row with a blank handle or team never reaches an index. */
    predicate Usable() {
      handle != "" && team != ""
    }

    function Key(): string {
      ToLower(handle)
    }

    /** The row contributes to the member with lowercased handle `k` of team `t`. */
    predicate At(t: string, k: string) {
      Usable() && team == t && Key() == k
    }
  }

  /** What each shipped source promises of its rows: its own name, and orgs only from github-org. */
  ghost predicate FromSource(n: string, rows: seq<Membership>) {
    forall m :: m in rows ==> m.source == n && (m.org != "" ==> n == GITHUB_ORG)
  }
}
