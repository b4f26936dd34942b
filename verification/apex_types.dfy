/** The sessions of apexd and the package files they stage. */
module ApexTypes {
  datatype SessionState =
    | UNKNOWN | VERIFIED | STAGED | ACTIVATED | ACTIVATION_FAILED
    | SUCCESS | REVERT_IN_PROGRESS | REVERTED | REVERT_FAILED

  /** Sessions the daemon is done with: ApexSession::IsFinalized. */
  predicate IsFinalized(s: SessionState) {
    s == SUCCESS || s == ACTIVATION_FAILED || s == REVERTED || s == REVERT_FAILED
  }

  datatype ApexFile = ApexFile(name: string, version: int, payload: nat)

  /** `apexes` are the packages in the session's staged directories. */
  datatype Session = Session(state: SessionState, apexes: seq<ApexFile>, fingerprint: string)

  type Sessions = map<int, Session>

  function Names(apexes: seq<ApexFile>): set<string> {
    set a | a in apexes :: a.name
  }

  function InState(ss: Sessions, s: SessionState): set<int> {
    set i | i in ss && ss[i].state == s
  }
}
