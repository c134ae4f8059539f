/**
 * The global policy: its validity check and the rights table that seeds the file system
 * (policy-utils/src/policy.rs and policy-utils/src/principal.rs).
 */
module Policy {
  import opened Paths

  /** A right is the position of its bit; bits outside `ALL_RIGHTS` are not defined. */
  type Right = nat
  type Rights = set<Right>

  const FD_READ: Right := 1
  const FD_SEEK: Right := 2
  const FD_WRITE: Right := 6
  const PATH_CREATE_DIRECTORY: Right := 9
  const PATH_CREATE_FILE: Right := 10
  const PATH_OPEN: Right := 13
  const FD_READDIR: Right := 14
  const PATH_FILESTAT_SET_SIZE: Right := 19
  const FD_FILESTAT_SET_SIZE: Right := 22

  const DEFINED_RIGHTS: nat := 30
  const ALL_RIGHTS: Rights := set r: nat | 0 <= r < DEFINED_RIGHTS

  datatype Principal = InternalSuperUser | Participant(id: nat) | Program(name: string) | NoCap

  type RightsMap = map<Path, Rights>
  type RightsTable = map<Principal, RightsMap>

  /** `rights` is the set of one-bits of the stored 32-bit word. */
  datatype FileRights = FileRights(fileName: Path, rights: set<nat>)
  datatype Identity = Identity(certificate: string, id: nat, fileRights: seq<FileRights>)
  datatype ProgramEntry = ProgramEntry(fileName: string, fileRights: seq<FileRights>)
  datatype Policy = Policy(identities: seq<Identity>, programs: seq<ProgramEntry>)

  datatype PolicyError = CertificateFormatError(certificate: string) | DuplicatedClientIDError(id: nat)
  datatype Validity = Valid | Invalid(error: PolicyError)

  const CERTIFICATE_END: string := "-----END CERTIFICATE-----"

  /** `Rights::from_bits_truncate`: undefined bits are dropped and defined ones kept. */
  function FromBitsTruncate(bits: set<nat>): (r: Rights)
    ensures forall b :: b in r <==> b in bits && b < 30
  {
    bits * ALL_RIGHTS
  }

  /** `FileRights::compute_right_map`: later entries for the same path replace earlier ones. */
  function ComputeRightMap(frs: seq<FileRights>): RightsMap {
    if frs == [] then map[] else
      var last := frs[|frs| - 1];
      ComputeRightMap(frs[..|frs| - 1])[last.fileName := FromBitsTruncate(last.rights)]
  }

  /** The granted rights of a path are those of the last entry that names it. */
  lemma {:induction false} RightMapIsLastEntry(frs: seq<FileRights>, k: nat)
    requires k < |frs|
    requires forall j :: k < j < |frs| ==> frs[j].fileName != frs[k].fileName
    ensures frs[k].fileName in ComputeRightMap(frs)
    ensures ComputeRightMap(frs)[frs[k].fileName] == FromBitsTruncate(frs[k].rights)
  {
    if k < |frs| - 1 {
      RightMapIsLastEntry(frs[..|frs| - 1], k);
    }
  }

  predicate CertificateOk(certificate: string) {
    |CERTIFICATE_END| <= |certificate| && certificate[|certificate| - |CERTIFICATE_END|..] == CERTIFICATE_END
  }

  ghost predicate AllCertificatesOk(ids: seq<Identity>) {
    forall k :: 0 <= k < |ids| ==> CertificateOk(ids[k].certificate)
  }

  ghost predicate DistinctIds(ids: seq<Identity>) {
    forall i, j :: 0 <= i < j < |ids| ==> ids[i].id != ids[j].id
  }

  /** `Policy::assert_valid`: the loop accepts exactly the policies with well-ended certificates and distinct ids. */
  method AssertValid(p: Policy) returns (v: Validity)
    ensures v.Valid? <==> AllCertificatesOk(p.identities) && DistinctIds(p.identities)
    ensures v.Invalid? && v.error.DuplicatedClientIDError? ==>
              exists i, j :: 0 <= i < j < |p.identities| && p.identities[i].id == p.identities[j].id == v.error.id
    ensures v.Invalid? && v.error.CertificateFormatError? ==>
              exists i :: 0 <= i < |p.identities| && p.identities[i].certificate == v.error.certificate
                  && !CertificateOk(v.error.certificate)
  {
    var clientIds: seq<nat> := [];
    for n := 0 to |p.identities|
      invariant |clientIds| == n
      invariant forall k :: 0 <= k < n ==> clientIds[k] == p.identities[k].id
      invariant forall k :: 0 <= k < n ==> CertificateOk(p.identities[k].certificate)
      invariant forall i, j :: 0 <= i < j < n ==> p.identities[i].id != p.identities[j].id
    {
      var identity := p.identities[n];
      if !CertificateOk(identity.certificate) {
        return Invalid(CertificateFormatError(identity.certificate));
      }
      if identity.id in clientIds {
        var i :| 0 <= i < |clientIds| && clientIds[i] == identity.id;
        assert p.identities[i].id == p.identities[n].id;
        return Invalid(DuplicatedClientIDError(identity.id));
      }
      clientIds := clientIds + [identity.id];
    }
    return Valid;
  }

  function IdentityRows(ids: seq<Identity>): RightsTable {
    if ids == [] then map[] else
      var last := ids[|ids| - 1];
      IdentityRows(ids[..|ids| - 1])[Participant(last.id) := ComputeRightMap(last.fileRights)]
  }

  function ProgramRows(table: RightsTable, ps: seq<ProgramEntry>): RightsTable {
    if ps == [] then table else
      var last := ps[|ps| - 1];
      ProgramRows(table, ps[..|ps| - 1])[Program(last.fileName) := ComputeRightMap(last.fileRights)]
  }

  function RightsTableOf(p: Policy): RightsTable {
    ProgramRows(IdentityRows(p.identities), p.programs)
  }

  /** `Policy::get_rights_table`: one loop over the identities, one over the programs, filling one map. */
  method GetRightsTable(p: Policy) returns (table: RightsTable)
    ensures table == RightsTableOf(p)
  {
    table := map[];
    for n := 0 to |p.identities|
      invariant table == IdentityRows(p.identities[..n])
    {
      var identity := p.identities[n];
      assert p.identities[..n + 1][..n] == p.identities[..n];
      table := table[Participant(identity.id) := ComputeRightMap(identity.fileRights)];
    }
    assert p.identities[..|p.identities|] == p.identities;
    for n := 0 to |p.programs|
      invariant table == ProgramRows(IdentityRows(p.identities), p.programs[..n])
    {
      var program := p.programs[n];
      assert p.programs[..n + 1][..n] == p.programs[..n];
      table := table[Program(program.fileName) := ComputeRightMap(program.fileRights)];
    }
    assert p.programs[..|p.programs|] == p.programs;
  }

  lemma {:induction false} IdentityRow(ids: seq<Identity>, k: nat)
    requires k < |ids|
    requires forall j :: k < j < |ids| && ids[j].id == ids[k].id ==>
               ComputeRightMap(ids[j].fileRights) == ComputeRightMap(ids[k].fileRights)
    ensures Participant(ids[k].id) in IdentityRows(ids)
    ensures IdentityRows(ids)[Participant(ids[k].id)] == ComputeRightMap(ids[k].fileRights)
  {
    var n := |ids| - 1;
    if ids[n].id != ids[k].id {
      assert ids[..n][k] == ids[k];
      IdentityRow(ids[..n], k);
    }
  }

  lemma {:induction false} ProgramsKeepParticipants(table: RightsTable, ps: seq<ProgramEntry>, id: nat)
    ensures Participant(id) in ProgramRows(table, ps) <==> Participant(id) in table
    ensures Participant(id) in table ==> ProgramRows(table, ps)[Participant(id)] == table[Participant(id)]
  {
    if ps != [] {
      ProgramsKeepParticipants(table, ps[..|ps| - 1], id);
    }
  }

  /**
   * In an accepted policy every participant's row is its own rights map: no later identity and no program replaces it.
   */
  lemma OwnRow(p: Policy, k: nat)
    requires DistinctIds(p.identities)
    requires k < |p.identities|
    ensures Participant(p.identities[k].id) in RightsTableOf(p)
    ensures RightsTableOf(p)[Participant(p.identities[k].id)] == ComputeRightMap(p.identities[k].fileRights)
  {
    IdentityRow(p.identities, k);
    ProgramsKeepParticipants(IdentityRows(p.identities), p.programs, p.identities[k].id);
  }
}
