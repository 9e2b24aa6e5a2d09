/** Counting a slot in queues, ladders and stacks: the tool behind "every slot is in exactly one place". */
module SlotCounts {
  import opened BookSpec

  ghost function QueueCount(q: Queue, s: nat): nat {
    if q == [] then 0 else (if q[0].slot == s then 1 else 0) + QueueCount(q[1..], s)
  }

  ghost function LadderCount(l: Ladder, s: nat): nat {
    if l == [] then 0 else QueueCount(l[0], s) + LadderCount(l[1..], s)
  }

  ghost function StackCount(free: seq<nat>, s: nat): nat {
    if free == [] then 0 else (if free[0] == s then 1 else 0) + StackCount(free[1..], s)
  }

  lemma {:induction false} QueueCountAppend(p: Queue, q: Queue, s: nat)
    ensures QueueCount(p + q, s) == QueueCount(p, s) + QueueCount(q, s)
  {
    if p == [] {
      assert p + q == q;
    } else {
      QueueCountAppend(p[1..], q, s);
      assert (p + q)[1..] == p[1..] + q;
    }
  }

  lemma {:induction false} LadderCountAppend(l: Ladder, m: Ladder, s: nat)
    ensures LadderCount(l + m, s) == LadderCount(l, s) + LadderCount(m, s)
  {
    if l == [] {
      assert l + m == m;
    } else {
      LadderCountAppend(l[1..], m, s);
      assert (l + m)[1..] == l[1..] + m;
    }
  }

  lemma LadderCountSplit(l: Ladder, i: nat, s: nat)
    requires i < |l|
    ensures LadderCount(l, s) == LadderCount(l[..i], s) + QueueCount(l[i], s) + LadderCount(l[i + 1..], s)
  {
    LadderCountAppend(l[..i], l[i..], s);
    assert l == l[..i] + l[i..];
    assert l[i..][1..] == l[i + 1..];
  }

  // Replacing one queue changes the count by exactly that queue's share.
  lemma LadderCountUpdate(l: Ladder, i: nat, q: Queue, s: nat)
    requires i < |l|
    ensures LadderCount(l[i := q], s) + QueueCount(l[i], s) == LadderCount(l, s) + QueueCount(q, s)
  {
    LadderCountSplit(l, i, s);
    LadderCountSplit(l[i := q], i, s);
    assert l[i := q][..i] == l[..i];
    assert l[i := q][i + 1..] == l[i + 1..];
  }

  lemma QueueCountSplit(q: Queue, k: nat, s: nat)
    requires k < |q|
    ensures QueueCount(q, s)
         == QueueCount(q[..k], s) + (if q[k].slot == s then 1 else 0) + QueueCount(q[k + 1..], s)
    ensures QueueCount(q[..k] + q[k + 1..], s) == QueueCount(q[..k], s) + QueueCount(q[k + 1..], s)
  {
    QueueCountAppend(q[..k], q[k..], s);
    assert q == q[..k] + q[k..];
    assert q[k..][1..] == q[k + 1..];
    QueueCountAppend(q[..k], q[k + 1..], s);
  }

  lemma InLadder(l: Ladder, i: nat, k: nat)
    requires i < |l| && k < |l[i]|
    ensures QueueCount(l[i], l[i][k].slot) > 0
    ensures LadderCount(l, l[i][k].slot) > 0
  {
    LadderCountSplit(l, i, l[i][k].slot);
    QueueCountSplit(l[i], k, l[i][k].slot);
  }

  lemma {:induction false} FromQueueCount(q: Queue, s: nat) returns (k: nat)
    requires QueueCount(q, s) > 0
    ensures k < |q| && q[k].slot == s
  {
    if q[0].slot == s {
      k := 0;
    } else {
      k := FromQueueCount(q[1..], s);
      k := k + 1;
    }
  }

  lemma {:induction false} FromLadderCount(l: Ladder, s: nat) returns (i: nat, k: nat)
    requires LadderCount(l, s) > 0
    ensures i < |l| && k < |l[i]| && l[i][k].slot == s
  {
    if QueueCount(l[0], s) > 0 {
      i := 0;
      k := FromQueueCount(l[0], s);
    } else {
      i, k := FromLadderCount(l[1..], s);
      i := i + 1;
    }
  }

  lemma {:induction false} StackMember(free: seq<nat>, s: nat)
    ensures StackCount(free, s) > 0 <==> s in free
  {
    if free != [] {
      StackMember(free[1..], s);
      assert free == [free[0]] + free[1..];
    }
  }

  lemma {:induction false} StackTwice(free: seq<nat>, j: nat, k: nat)
    requires j < k < |free| && free[j] == free[k]
    ensures StackCount(free, free[j]) >= 2
  {
    if j == 0 {
      assert free[1..][k - 1] == free[0];
      StackMember(free[1..], free[0]);
    } else {
      StackTwice(free[1..], j - 1, k - 1);
    }
  }

  // A slot found at two places of one ladder is counted twice.
  lemma SeenTwice(l: Ladder, i: nat, k: nat, i': nat, k': nat)
    requires i < |l| && k < |l[i]| && i' < |l| && k' < |l[i']|
    requires i < i' || (i == i' && k < k')
    requires l[i][k].slot == l[i'][k'].slot
    ensures LadderCount(l, l[i][k].slot) >= 2
  {
    var s := l[i][k].slot;
    LadderCountSplit(l, i, s);
    QueueCountSplit(l[i], k, s);
    if i < i' {
      var rest := l[i + 1..];
      assert rest[i' - i - 1] == l[i'];
      InLadder(rest, i' - i - 1, k');
    } else {
      var rest := l[i][k + 1..];
      assert rest[k' - k - 1] == l[i][k'];
      QueueCountSplit(rest, k' - k - 1, s);
    }
  }
}
