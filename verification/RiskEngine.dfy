/** Risk levels, informational boosts, and the risk an object inherits from its dependencies. */
module RiskEngine {

  /** none, low, medium, high, critical as 0 to 4. */
  type Level = n: nat | n <= 4

  function Max(a: int, b: int): (m: int) {
    if a >= b then a else b
  }

  /** What an object's context tells of it: critical notifications, blocked heartbeats, off-track indicators. */
  datatype Notices = Notices(critical: nat, blocked: nat, offTrack: nat)

  function One(n: nat): (raise: nat) {
    if n > 0 then 1 else 0
  }

  /** The scored level: each kind of notice raises the intrinsic level by one, up to critical. */
  function Boosted(level: Level, notices: Notices): (boosted: Level)
    ensures level <= boosted <= level + 3
  {
    var raised := level + One(notices.critical) + One(notices.blocked) + One(notices.offTrack);
    if raised > 4 then 4 else raised
  }

  /** Each kind of notice counts alike, once, and no level goes beyond critical. */
  lemma KindsCountAlike(level: Level, a: nat, b: nat, c: nat)
    ensures Boosted(level, Notices(0, 0, 0)) == level
    ensures a > 0 ==> Boosted(level, Notices(a, b, c)) == if Boosted(level, Notices(0, b, c)) == 4 then 4
                                                         else Boosted(level, Notices(0, b, c)) + 1
    ensures Boosted(level, Notices(a, b, c)) == Boosted(level, Notices(b, a, c)) == Boosted(level, Notices(c, b, a))
  {
  }

  method ApplyBoosts(level: Level, notices: Notices) returns (boosted: Level)
    ensures boosted == Boosted(level, notices)
  {
    boosted := level;
    if notices.critical > 0 { boosted := if boosted + 1 > 4 then 4 else boosted + 1; }
    if notices.blocked > 0 { boosted := if boosted + 1 > 4 then 4 else boosted + 1; }
    if notices.offTrack > 0 { boosted := if boosted + 1 > 4 then 4 else boosted + 1; }
  }

  /** What a dependency at some level contributes from some number of steps away. */
  function Attenuated(level: Level, steps: nat): (r: Level) {
    if level >= steps then level - steps else 0
  }

  /** r is the greatest of the intrinsic level and each dependency's level less one. */
  ghost predicate IsEffective(intrinsic: Level, dependencies: seq<Level>, r: Level) {
    && r >= intrinsic
    && (forall d :: d in dependencies ==> r >= Attenuated(d, 1))
    && (r == intrinsic || exists d :: d in dependencies && r == Attenuated(d, 1))
  }

  method PropagateRisk(intrinsic: Level, dependencies: seq<Level>) returns (r: Level)
    ensures IsEffective(intrinsic, dependencies, r)
  {
    var maxDep: Level := 0;
    for k := 0 to |dependencies|
      invariant forall i :: 0 <= i < k ==> maxDep >= Attenuated(dependencies[i], 1)
      invariant maxDep == 0 || exists d :: d in dependencies && maxDep == Attenuated(d, 1)
    {
      var depOrder: int := dependencies[k];
      var attenuated := Max(0, depOrder - 1);
      assert attenuated == Attenuated(dependencies[k], 1);
      maxDep := Max(maxDep, attenuated);
    }
    r := Max(intrinsic, maxDep);
  }
}
