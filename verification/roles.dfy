/** The role classification shared by the search and role-distribution
    pages: `df["role"].astype(str).map(role_map).fillna("Unknown")`. */
module Roles {
  import opened Wrappers
  import opened Sequences
  import opened Tally

  /** The four values of the `role_desc` column. */
  datatype Role = PrimarySuspect | SecondarySuspect | Concomitant | Unknown {

    /** The label the dashboard displays. */
    function Label(): string {
      match this
      case PrimarySuspect => "Primary suspect"
      case SecondarySuspect => "Secondary suspect"
      case Concomitant => "Concomitant"
      case Unknown => "Unknown"
    }
  }

  /** `role_map`: the fixed code-to-role table. */
  const RoleMap: map<string, Role> := map["1" := PrimarySuspect, "2" := SecondarySuspect, "3" := Concomitant]

  /** `astype(str)`: a present code keeps its text and a missing value
      becomes the text "None", indistinguishable from a code "None". */
  function AsStr(code: Option<string>): (s: string)
    ensures code.Some? ==> s == code.value
    ensures s == "None" <==> code in {None, Some("None")}
  {
    match code
    case Some(s) => s
    case None => "None"
  }

  /** The role of one row. The table is total: each of the codes "1", "2",
      "3" has its own role, and every other value, a missing one included,
      is `Unknown`. */
  function Classify(code: Option<string>): (r: Role)
    ensures r == PrimarySuspect <==> code == Some("1")
    ensures r == SecondarySuspect <==> code == Some("2")
    ensures r == Concomitant <==> code == Some("3")
    ensures r == Unknown <==> code !in {Some("1"), Some("2"), Some("3")}
  {
    var s := AsStr(code);
    if s in RoleMap then RoleMap[s] else Unknown
  }

  /** The `role_desc` column: one role per row, in row order. */
  function RoleColumn(codes: seq<Option<string>>): (roles: seq<Role>)
    ensures |roles| == |codes|
  {
    if codes == [] then [] else [Classify(codes[0])] + RoleColumn(codes[1..])
  }

  /** No row is lost or reordered by the mapping: position `k` of the column
      holds the role of row `k`. */
  lemma {:induction false} RoleColumnIndex(codes: seq<Option<string>>, k: nat)
    requires k < |codes|
    ensures RoleColumn(codes)[k] == Classify(codes[k])
  {
    if k > 0 {
      RoleColumnIndex(codes[1..], k - 1);
    }
  }

  /** Distinct roles have distinct labels. */
  lemma LabelsDistinct(a: Role, b: Role)
    ensures a.Label() == b.Label() ==> a == b
  {
  }

  /** The `role_desc` column as the texts pandas counts. */
  function LabelColumn(roles: seq<Role>): (labels: seq<string>)
    ensures |labels| == |roles|
  {
    if roles == [] then [] else [roles[0].Label()] + LabelColumn(roles[1..])
  }

  /** Counting the label texts is counting the roles: each label occurs in
      the text column exactly as often as its role occurs. */
  lemma {:induction false} LabelCountIsRoleCount(roles: seq<Role>, r: Role)
    ensures Count(LabelColumn(roles), r.Label()) == Count(roles, r)
  {
    if roles != [] {
      LabelCountIsRoleCount(roles[1..], r);
      LabelsDistinct(roles[0], r);
      assert LabelColumn(roles)[1..] == LabelColumn(roles[1..]);
    }
  }

  /** `role_desc.value_counts()`: every key is a role that occurs, every
      occurring role is a key once, each count is that role's number of
      rows and is positive, and the counts add up to the number of rows. */
  function RoleCounts(roles: seq<Role>): (counts: seq<(Role, nat)>)
    ensures forall i :: 0 <= i < |counts| ==> counts[i].0 in roles && counts[i].1 == Count(roles, counts[i].0) > 0
    ensures forall i :: 0 <= i < |roles| ==> roles[i] in Keys(counts)
    ensures NoDuplicates(Keys(counts))
    ensures SumCounts(counts) == |roles|
    ensures |counts| <= 4
  {
    ValueCountsSum(roles);
    var counts := ValueCounts(roles);
    AtMostFourRoles(Keys(counts));
    counts
  }

  /** Every row falls under exactly one of the four roles. */
  lemma {:induction false} FourRolesPartition(rs: seq<Role>)
    ensures Count(rs, PrimarySuspect) + Count(rs, SecondarySuspect) + Count(rs, Concomitant) + Count(rs, Unknown) == |rs|
  {
    if rs != [] {
      FourRolesPartition(rs[1..]);
      assert rs[0].PrimarySuspect? || rs[0].SecondarySuspect? || rs[0].Concomitant? || rs[0].Unknown?;
    }
  }

  /** A list of distinct roles has at most four entries. */
  lemma AtMostFourRoles(rs: seq<Role>)
    requires NoDuplicates(rs)
    ensures |rs| <= 4
  {
    FourRolesPartition(rs);
    CountOfDistinct(rs, PrimarySuspect);
    CountOfDistinct(rs, SecondarySuspect);
    CountOfDistinct(rs, Concomitant);
    CountOfDistinct(rs, Unknown);
  }

  /** Rows whose codes are only "1" and "3", both present, are counted under
      exactly two roles, with no zero-count entry for the other two. */
  lemma OnlyPrimaryAndConcomitant(codes: seq<Option<string>>)
    requires forall k :: 0 <= k < |codes| ==> codes[k] == Some("1") || codes[k] == Some("3")
    requires Some("1") in codes && Some("3") in codes
    ensures var counts := RoleCounts(RoleColumn(codes));
            && |counts| == 2
            && PrimarySuspect in Keys(counts)
            && Concomitant in Keys(counts)
  {
    var roles := RoleColumn(codes);
    var counts := RoleCounts(roles);
    var ks := Keys(counts);
    assert PrimarySuspect in ks by {
      var k1 :| 0 <= k1 < |codes| && codes[k1] == Some("1");
      RoleColumnIndex(codes, k1);
      assert roles[k1] in ks;
    }
    assert Concomitant in ks by {
      var k3 :| 0 <= k3 < |codes| && codes[k3] == Some("3");
      RoleColumnIndex(codes, k3);
      assert roles[k3] in ks;
    }
    assert forall i :: 0 <= i < |ks| ==> ks[i] == PrimarySuspect || ks[i] == Concomitant by {
      forall i | 0 <= i < |ks| ensures ks[i] == PrimarySuspect || ks[i] == Concomitant {
        assert ks[i] == counts[i].0 && counts[i].0 in roles;
        var k :| 0 <= k < |roles| && roles[k] == ks[i];
        RoleColumnIndex(codes, k);
      }
    }
    TwoRoles(ks);
  }

  /** Distinct roles, among them a primary suspect and a concomitant and no
      other role, are exactly two. */
  lemma TwoRoles(ks: seq<Role>)
    requires NoDuplicates(ks) && PrimarySuspect in ks && Concomitant in ks
    requires forall i :: 0 <= i < |ks| ==> ks[i] == PrimarySuspect || ks[i] == Concomitant
    ensures |ks| == 2
  {
    FourRolesPartition(ks);
    CountOfDistinct(ks, PrimarySuspect);
    CountOfDistinct(ks, SecondarySuspect);
    CountOfDistinct(ks, Concomitant);
    CountOfDistinct(ks, Unknown);
  }
}
