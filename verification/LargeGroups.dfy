/** How many messages find room for their satellites: the bound on the declared
    number is exact (src/nmea-parser.c). */
module LargeGroups {
  import opened Assembly

  const FULL := [Row(1, 0, 0, 0), Row(2, 0, 0, 0), Row(3, 0, 0, 0), Row(4, 0, 0, 0)]

  /** The first k messages of a group that declares total of them, four
      satellites in each; more than total may come. */
  function FullGroup(total: int, k: nat): (run: Run)
    ensures |run| == k
  {
    if k == 0 then [] else FullGroup(total, k - 1) + [Message(k, total, FULL)]
  }

  /** Until the declared number is reached, which it never is if it is not
      positive, everything stays staged. */
  lemma {:induction false} FullGroupStaged(total: int, k: nat)
    requires total <= 0 || k < total
    ensures var s := ReceiveAll(FullGroup(total, k));
            && s.messageCount == k && |s.staged| == 4 * k && (k > 0 ==> s.numberOfMessages == total)
    decreases k
  {
    if k > 0 {
      FullGroupStaged(total, k - 1);
      assert Init(FullGroup(total, k)) == FullGroup(total, k - 1);
    }
  }

  /** From then on nothing is staged. */
  lemma {:induction false} FullGroupDone(total: int, k: nat)
    requires 1 <= total <= k
    ensures var s := ReceiveAll(FullGroup(total, k)); s.messageCount == 0 && s.staged == []
    decreases k
  {
    assert Init(FullGroup(total, k)) == FullGroup(total, k - 1);
    if k == total {
      FullGroupStaged(total, k - 1);
    } else {
      FullGroupDone(total, k - 1);
    }
  }

  /** The bounds are exact: full messages, however many come, all find room if
      and only if the group declares one to eight of them. */
  lemma FullGroupFits(total: int)
    ensures (forall k: nat :: HasRoom(ReceiveAll(FullGroup(total, k)), Message(k + 1, total, FULL)))
            <==> 1 <= total <= 8
  {
    if 1 <= total <= 8 {
      forall k: nat
        ensures HasRoom(ReceiveAll(FullGroup(total, k)), Message(k + 1, total, FULL))
      {
        if k < total {
          FullGroupStaged(total, k);
        } else {
          FullGroupDone(total, k);
        }
      }
    } else {
      FullGroupStaged(total, 8);
      assert !HasRoom(ReceiveAll(FullGroup(total, 8)), Message(8 + 1, total, FULL));
    }
  }
}
