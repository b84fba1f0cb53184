/** The reference-counted circular list of CPUs of src/cpus.c. */
module CpuRing {
  import opened Codes
  import opened Sets

  class CpuInfo {
    var cpuNum: nat
    var next: CpuInfo?
    var numUsers: int

    constructor (cpuNum: nat)
      ensures this.cpuNum == cpuNum && next == null && numUsers == 0
    {
      this.cpuNum := cpuNum;
      next := null;
      numUsers := 0;
    }
  }

  // ------------------------------------------------------- counting users, abstractly

  /** Users of each CPU that has any. */
  type Users = map<nat, nat>

  function Get(u: Users, n: nat): nat {
    if n in u then u[n] else 0
  }

  function Acquired(u: Users, n: nat): Users {
    u[n := Get(u, n) + 1]
  }

  function Released(u: Users, n: nat): Users {
    if Get(u, n) <= 1 then u - {n} else u[n := u[n] - 1]
  }

  datatype Call = Acquire(n: nat) | Release(n: nat)

  /** The users after a run of successful calls. */
  function Run(calls: seq<Call>): Users {
    if calls == [] then map[]
    else
      var u := Run(calls[..|calls| - 1]);
      match calls[|calls| - 1]
      case Acquire(n) => Acquired(u, n)
      case Release(n) => Released(u, n)
  }

  /** Every release gives back something held. */
  predicate Balanced(calls: seq<Call>) {
    calls == []
    || (Balanced(calls[..|calls| - 1])
        && (calls[|calls| - 1].Release? ==> calls[|calls| - 1].n in Run(calls[..|calls| - 1])))
  }

  function Acquisitions(calls: seq<Call>, n: nat): nat {
    if calls == [] then 0
    else Acquisitions(calls[..|calls| - 1], n) + if calls[|calls| - 1] == Acquire(n) then 1 else 0
  }

  function Releases(calls: seq<Call>, n: nat): nat {
    if calls == [] then 0
    else Releases(calls[..|calls| - 1], n) + if calls[|calls| - 1] == Release(n) then 1 else 0
  }

  /** Over every run, a CPU is listed exactly while it has more acquisitions than
      releases, and the difference is its number of users. */
  lemma {:induction false} UsersAreTheBalance(calls: seq<Call>, n: nat)
    requires Balanced(calls)
    ensures Get(Run(calls), n) == Acquisitions(calls, n) - Releases(calls, n)
    ensures n in Run(calls) <==> Acquisitions(calls, n) > Releases(calls, n)
  {
    if calls != [] {
      var c := calls[|calls| - 1];
      UsersAreTheBalance(calls[..|calls| - 1], n);
      UsersAreTheBalance(calls[..|calls| - 1], c.n);
    }
  }

  // ------------------------------------------------------------------- the ring

  lemma AcquireRecorded(calls: seq<Call>, n: nat)
    requires Balanced(calls)
    ensures Balanced(calls + [Acquire(n)]) && Run(calls + [Acquire(n)]) == Acquired(Run(calls), n)
  {
    assert (calls + [Acquire(n)])[..|calls|] == calls;
  }

  /** What one rotation of the ring by k looks like. */
  function Rotated<T>(s: seq<T>, k: nat): seq<T>
    requires k <= |s|
  {
    s[k..] + s[..k]
  }

  ghost predicate IsRotation(t: seq<CpuInfo>, s: seq<CpuInfo>) {
    exists k: nat :: k <= |s| && t == Rotated(s, k)
  }

  /** A new head; the old one goes last. */
  function InFront(entry: CpuInfo, s: seq<CpuInfo>): seq<CpuInfo> {
    [entry] + if s == [] then [] else Rotated(s, 1)
  }

  function Succ(s: seq<CpuInfo>, i: nat): CpuInfo
    requires i < |s|
  {
    if i + 1 < |s| then s[i + 1] else s[0]
  }

  ghost predicate Linked(s: seq<CpuInfo>)
    reads s
  {
    forall i {:trigger s[i].next} :: 0 <= i < |s| ==> s[i].next == Succ(s, i)
  }

  lemma RotationLinked(s: seq<CpuInfo>, k: nat)
    requires k <= |s| && Linked(s) && NoRepeats(s)
    ensures Linked(Rotated(s, k)) && NoRepeats(Rotated(s, k))
  {
    var r := Rotated(s, k);
    forall i | 0 <= i < |r|
      ensures r[i].next == Succ(r, i)
    {
      var j := if i < |s| - k then i + k else i - (|s| - k);
      assert r[i] == s[j] && s[j].next == Succ(s, j);
    }
  }

  /** The CPUs of the ring carry these numbers and user counts. */
  ghost predicate Carries(s: seq<CpuInfo>, nums: seq<nat>, counts: seq<nat>)
    reads s
  {
    && |s| == |nums| == |counts|
    && forall i :: 0 <= i < |s| ==> s[i].cpuNum == nums[i] && s[i].numUsers == counts[i]
  }

  /** The user counts of u, which are positive. */
  ghost predicate Entries(nums: seq<nat>, counts: seq<nat>, u: Users) {
    |nums| == |counts| && forall i :: 0 <= i < |nums| ==> nums[i] in u && u[nums[i]] == counts[i] >= 1
  }

  /** nums lists the CPUs of u once each, with their counts. */
  ghost predicate Tally(nums: seq<nat>, counts: seq<nat>, u: Users) {
    NoRepeats(nums) && Entries(nums, counts, u) && |u| == |nums|
  }

  lemma CarriesRotated(s: seq<CpuInfo>, nums: seq<nat>, counts: seq<nat>, k: nat)
    requires Carries(s, nums, counts) && k <= |s|
    ensures Carries(Rotated(s, k), Rotated(nums, k), Rotated(counts, k))
  {
  }

  lemma CarriesRemoved(s: seq<CpuInfo>, nums: seq<nat>, counts: seq<nat>, at: nat)
    requires Carries(s, nums, counts) && at < |s|
    ensures Carries(s[..at] + s[at + 1..], nums[..at] + nums[at + 1..], counts[..at] + counts[at + 1..])
  {
  }

  lemma TallyRotated(nums: seq<nat>, counts: seq<nat>, u: Users, k: nat)
    requires Tally(nums, counts, u) && k <= |nums|
    ensures Tally(Rotated(nums, k), Rotated(counts, k), u)
  {
  }

  /** A CPU has users exactly when it is listed. */
  lemma TalliedIsListed(nums: seq<nat>, counts: seq<nat>, u: Users, n: nat)
    requires Tally(nums, counts, u)
    ensures n in u <==> n in nums
  {
    ElementCount(nums);
    var e := Elements(nums);
    assert e <= u.Keys;
    if n in u.Keys && n !in e {
      CardinalityOfSubset(e, u.Keys);
    }
  }

  lemma TallyAcquired(nums: seq<nat>, counts: seq<nat>, u: Users)
    requires Tally(nums, counts, u) && |nums| > 0
    ensures Tally(nums, counts[0 := counts[0] + 1], Acquired(u, nums[0]))
  {
  }

  lemma EntriesInserted(nums: seq<nat>, counts: seq<nat>, u: Users, n: nat)
    requires Entries(nums, counts, u) && n !in u
    ensures Entries([n] + nums, [1] + counts, Acquired(u, n))
  {
    var ns, cs, v := [n] + nums, [1] + counts, Acquired(u, n);
    forall i | 0 <= i < |ns|
      ensures ns[i] in v && v[ns[i]] == cs[i] >= 1
    {
      assert i > 0 ==> ns[i] == nums[i - 1] && cs[i] == counts[i - 1];
    }
  }

  lemma NoRepeatsInserted(nums: seq<nat>, counts: seq<nat>, u: Users, n: nat)
    requires NoRepeats(nums) && Entries(nums, counts, u) && n !in u
    ensures NoRepeats([n] + nums)
  {
    forall i, j | 0 <= i < j < |nums| + 1
      ensures ([n] + nums)[i] != ([n] + nums)[j]
    {
      assert ([n] + nums)[j] == nums[j - 1];
    }
  }

  lemma TallyInserted(nums: seq<nat>, counts: seq<nat>, u: Users, n: nat)
    requires Tally(nums, counts, u) && n !in u
    ensures Tally([n] + nums, [1] + counts, Acquired(u, n))
  {
    EntriesInserted(nums, counts, u, n);
    NoRepeatsInserted(nums, counts, u, n);
    assert Acquired(u, n).Keys == u.Keys + {n};
  }

  /** The tally once a new CPU in front gets its first user. */
  lemma TallyWithNew(nums: seq<nat>, counts: seq<nat>, u: Users, n: nat, r: nat)
    requires Tally(nums, counts, u) && n !in u && r <= |nums|
    ensures var cs := [0] + Rotated(counts, r);
            Tally([n] + Rotated(nums, r), cs[0 := cs[0] + 1], Acquired(u, n))
  {
    TallyRotated(nums, counts, u, r);
    TallyInserted(Rotated(nums, r), Rotated(counts, r), u, n);
    assert ([0] + Rotated(counts, r))[0 := 1] == [1] + Rotated(counts, r);
  }

  lemma TallyReleased(nums: seq<nat>, counts: seq<nat>, u: Users, at: nat)
    requires Tally(nums, counts, u) && at < |nums|
    ensures counts[at] > 1 ==> Tally(nums, counts[at := counts[at] - 1], Released(u, nums[at]))
    ensures counts[at] == 1 ==>
      Tally(nums[..at] + nums[at + 1..], counts[..at] + counts[at + 1..], Released(u, nums[at]))
  {
    if counts[at] == 1 {
      assert Released(u, nums[at]).Keys == u.Keys - {nums[at]};
    } else {
      assert Released(u, nums[at]).Keys == u.Keys;
    }
  }

  /** Whether the memory for a CPU is there, and the first answer of a component's
      init_thread that is not PAPI_OK. */
  datatype CreateAnswers = CreateAnswers(gotMemory: bool, initThread: int)

  predicate Creates(a: CreateAnswers) {
    a.gotMemory && a.initThread == PAPI_OK
  }

  class CpuList {
    var head: CpuInfo?
    ghost var ring: seq<CpuInfo>
    ghost var nums: seq<nat>
    ghost var counts: seq<nat>
    ghost var users: Users
    ghost var calls: seq<Call>

    /** One circular list from the head, of distinct CPUs. */
    ghost predicate Circular()
      reads this, ring
    {
      && (head == null <==> ring == [])
      && (ring != [] ==> head == ring[0])
      && Linked(ring) && NoRepeats(ring)
    }

    ghost predicate Valid()
      reads this, ring
    {
      Circular() && Carries(ring, nums, counts) && Tally(nums, counts, users)
    }

    /** The users are those of the calls made so far. */
    ghost predicate Recorded()
      reads this
    {
      Balanced(calls) && users == Run(calls)
    }

    constructor ()
      ensures Valid() && Recorded() && ring == [] && calls == []
    {
      head := null;
      ring, nums, counts := [], [], [];
      users, calls := map[], [];
    }

    /** In every state the calls can lead to, a CPU is on the ring exactly while its
        acquisitions exceed its releases, with the difference in num_users. */
    lemma RingIsTheBalance(n: nat)
      requires Valid() && Recorded()
      ensures Acquisitions(calls, n) > Releases(calls, n) <==> exists i :: 0 <= i < |ring| && ring[i].cpuNum == n
      ensures forall i :: 0 <= i < |ring| && ring[i].cpuNum == n ==>
        ring[i].numUsers == Acquisitions(calls, n) - Releases(calls, n)
    {
      UsersAreTheBalance(calls, n);
      TalliedIsListed(nums, counts, users, n);
      if n in nums {
        var i :| 0 <= i < |nums| && nums[i] == n;
        assert ring[i].cpuNum == n;
      }
      if i :| 0 <= i < |ring| && ring[i].cpuNum == n {
        assert nums[i] == n;
      }
    }

    /** The search: once around the ring from the head. */
    method Find(cpuNum: nat) returns (tmp: CpuInfo?, ghost k: nat)
      requires Circular()
      ensures tmp != null ==> k < |ring| && tmp == ring[k] && tmp.cpuNum == cpuNum
      ensures tmp == null ==> forall i :: 0 <= i < |ring| ==> ring[i].cpuNum != cpuNum
    {
      tmp := head;
      k := 0;
      while tmp != null
        invariant tmp != null ==> k < |ring| && tmp == ring[k]
        invariant tmp == null ==> k == |ring|
        invariant forall i :: 0 <= i < k ==> ring[i].cpuNum != cpuNum
        decreases |ring| - k
      {
        if tmp.cpuNum == cpuNum {
          return;
        }
        assert tmp.next == Succ(ring, k);
        tmp := tmp.next;
        k := k + 1;
        if tmp == head {
          tmp := null;
          return;
        }
      }
    }

    /** _papi_hwi_lookup_cpu: finding a CPU only turns the ring to it. */
    method Lookup(cpuNum: nat) returns (tmp: CpuInfo?, ghost k: nat)
      requires Valid()
      modifies this`head, this`ring, this`nums, this`counts
      ensures Valid()
      ensures tmp != null <==> cpuNum in users
      ensures tmp != null ==> tmp == head && nums != [] && nums[0] == cpuNum
      ensures k <= |old(ring)| && ring == Rotated(old(ring), k)
      ensures tmp == null ==> head == old(head) && ring == old(ring)
    {
      tmp, k := Find(cpuNum);
      if tmp == null {
        k := 0;
        assert Rotated(ring, 0) == ring;
        assert cpuNum !in nums;
        TalliedIsListed(nums, counts, users, cpuNum);
      } else {
        assert nums[k] == cpuNum;
        Turn(tmp, k);
      }
    }

    /** Makes the k-th element the head. */
    method Turn(tmp: CpuInfo, ghost k: nat)
      requires Valid() && k < |ring| && tmp == ring[k]
      modifies this`head, this`ring, this`nums, this`counts
      ensures Valid() && head == tmp
      ensures ring == Rotated(old(ring), k) && nums == Rotated(old(nums), k)
    {
      ghost var s, ns, cs := ring, nums, counts;
      head := tmp;
      ring, nums, counts := Rotated(s, k), Rotated(ns, k), Rotated(cs, k);
      RotationLinked(s, k);
      TallyRotated(ns, cs, users, k);
      CarriesRotated(s, ns, cs, k);
    }

    /** insert_cpu: the new CPU becomes the head, in front of the old second one. */
    method Insert(entry: CpuInfo)
      requires Circular() && entry !in ring
      modifies this`head, this`ring, ring`next, entry`next
      ensures Circular()
      ensures ring == InFront(entry, old(ring))
    {
      ghost var s := ring;
      if head == null {
        entry.next := entry;
      } else if head.next == head {
        assert head.next == Succ(ring, 0);
        head.next := entry;
        entry.next := head;
      } else {
        assert head.next == Succ(ring, 0);
        entry.next := head.next;
        head.next := entry;
      }
      ring := InFront(entry, s);
      head := entry;
    }

    /** _papi_hwi_lookup_or_create_cpu.  The use count is incremented without a look at
        the answer, so the call goes through a null pointer exactly if the CPU has no
        users and cannot be created; what happens then is undefined, and `here` null. */
    method LookupOrCreate(cpuNum: nat, a: CreateAnswers) returns (retval: int, here: CpuInfo?)
      requires Valid() && Recorded()
      modifies this, ring
      ensures Valid() && Recorded()
      ensures here == null <==> cpuNum !in old(users) && !Creates(a)
      ensures here == null ==> retval == (if a.gotMemory then a.initThread else PAPI_ENOMEM) != PAPI_OK
      ensures here == null ==> ring == old(ring) && users == old(users) && calls == old(calls)
      ensures here != null ==> retval == PAPI_OK && here in ring && here == head && here.cpuNum == cpuNum
      ensures here != null ==> users == Acquired(old(users), cpuNum) && calls == old(calls) + [Acquire(cpuNum)]
      ensures cpuNum in old(users) ==> IsRotation(ring, old(ring))
      ensures here != null && cpuNum !in old(users) ==> fresh(here) && ring == InFront(here, old(ring))
    {
      AcquireRecorded(calls, cpuNum);
      retval, here := Obtain(cpuNum, a);
      if here != null {
        AddUser(here, cpuNum);
      }
    }

    /** The search and, if it fails, the creation: what the increment goes through. */
    method Obtain(cpuNum: nat, a: CreateAnswers) returns (retval: int, tmp: CpuInfo?)
      requires Valid()
      modifies this`head, this`ring, this`nums, this`counts, ring`next
      ensures tmp == null <==> cpuNum !in users && !Creates(a)
      ensures tmp == null ==> Valid() && ring == old(ring)
      ensures retval == if tmp != null then PAPI_OK else if a.gotMemory then a.initThread else PAPI_ENOMEM
      ensures tmp != null ==> Circular() && Carries(ring, nums, counts) && tmp == head && tmp.cpuNum == cpuNum
      ensures tmp != null ==> counts != [] && Tally(nums, counts[0 := counts[0] + 1], Acquired(users, cpuNum))
      ensures cpuNum in users ==> IsRotation(ring, old(ring))
      ensures tmp != null && cpuNum !in users ==> fresh(tmp) && ring == InFront(tmp, old(ring))
    {
      ghost var k;
      retval := PAPI_OK;
      tmp, k := Lookup(cpuNum);
      if tmp == null {
        retval, tmp := InitializeCpu(cpuNum, a);
      } else {
        TallyAcquired(nums, counts, users);
      }
    }

    /** num_users++ of the CPU at the head. */
    method BumpHead(tmp: CpuInfo)
      requires Circular() && Carries(ring, nums, counts) && tmp == head
      modifies tmp`numUsers, this`counts
      ensures Circular() && Carries(ring, nums, counts)
      ensures counts == old(counts)[0 := old(counts)[0] + 1]
    {
      tmp.numUsers := tmp.numUsers + 1;
      counts := counts[0 := counts[0] + 1];
    }

    /** The increment of the use count, which makes the tally right again. */
    method AddUser(tmp: CpuInfo, ghost cpuNum: nat)
      requires Circular() && Carries(ring, nums, counts) && tmp == head
      requires Tally(nums, counts[0 := counts[0] + 1], Acquired(users, cpuNum))
      modifies tmp`numUsers, this`counts, this`users, this`calls
      ensures Valid() && users == Acquired(old(users), cpuNum) && calls == old(calls) + [Acquire(cpuNum)]
    {
      BumpHead(tmp);
      users := Acquired(users, cpuNum);
      calls := calls + [Acquire(cpuNum)];
    }

    /** The new CPU on the list, with no user yet. */
    method InsertUnused(cpu: CpuInfo)
      requires Circular() && Carries(ring, nums, counts) && cpu !in ring && cpu.numUsers == 0
      modifies this`head, this`ring, this`nums, this`counts, ring`next, cpu`next
      ensures Circular() && Carries(ring, nums, counts)
      ensures ring == InFront(cpu, old(ring))
      ensures nums == [cpu.cpuNum] + Rotated(old(nums), if old(nums) == [] then 0 else 1)
      ensures counts == [0] + Rotated(old(counts), if old(nums) == [] then 0 else 1)
    {
      ghost var r := if nums == [] then 0 else 1;
      Insert(cpu);
      nums, counts := [cpu.cpuNum] + Rotated(nums, r), [0] + Rotated(counts, r);
    }

    /** _papi_hwi_initialize_cpu: a new CPU without users at the head.  The tally is
        right as soon as it gets its first user.  After a failure there is no CPU and
        the ring is as before. */
    method InitializeCpu(cpuNum: nat, a: CreateAnswers) returns (retval: int, dest: CpuInfo?)
      requires Valid() && cpuNum !in users
      modifies this`head, this`ring, this`nums, this`counts, ring`next
      ensures retval == if a.gotMemory then a.initThread else PAPI_ENOMEM
      ensures retval != PAPI_OK ==> dest == null && Valid() && head == old(head) && ring == old(ring)
      ensures retval == PAPI_OK ==> dest != null && fresh(dest) && NewHead(dest, cpuNum)
      ensures retval == PAPI_OK ==> ring == InFront(dest, old(ring))
    {
      if !a.gotMemory {
        return PAPI_ENOMEM, null;
      }
      var cpu := new CpuInfo(cpuNum);
      if a.initThread != PAPI_OK {
        return a.initThread, null;
      }
      TallyWithNew(nums, counts, users, cpuNum, if nums == [] then 0 else 1);
      InsertUnused(cpu);
      retval, dest := PAPI_OK, cpu;
    }

    /** The head is a CPU that only lacks its first user. */
    ghost predicate NewHead(cpu: CpuInfo, cpuNum: nat)
      reads this, ring, cpu
    {
      && Circular() && Carries(ring, nums, counts) && ring != []
      && cpu == head && cpu.cpuNum == cpuNum && cpu.numUsers == 0
      && Tally(nums, counts[0 := counts[0] + 1], Acquired(users, cpuNum))
    }

    /** remove_cpu: the walk stops at the entry, with its predecessor in `prev` even
        when the entry is the head or the only element. */
    method Remove(entry: CpuInfo, ghost at: nat)
      requires Circular() && at < |ring| && ring[at] == entry
      modifies this`head, this`ring, ring`next
      ensures Circular() && ring == old(ring)[..at] + old(ring)[at + 1..]
    {
      var prev := FindPredecessor(entry, at);
      ghost var s := ring;
      assert entry.next == Succ(s, at);
      if prev == entry {
        head := null;
        entry.next := null;
      } else {
        prev.next := entry.next;
        if head == entry {
          head := entry.next;
        }
      }
      ring := s[..at] + s[at + 1..];
    }

    /** The walk of remove_cpu. */
    method FindPredecessor(entry: CpuInfo, ghost at: nat) returns (prev: CpuInfo)
      requires Circular() && at < |ring| && ring[at] == entry
      ensures prev == ring[if at == 0 then |ring| - 1 else at - 1]
    {
      var tmp: CpuInfo := head;
      var p: CpuInfo? := null;
      ghost var stop := if at == 0 then |ring| else at;
      ghost var k := 0;
      while entry != tmp || p == null
        invariant 0 <= k <= stop
        invariant tmp == if k < |ring| then ring[k] else ring[0]
        invariant p == null <==> k == 0
        invariant k > 0 ==> p == ring[k - 1]
        decreases stop - k
      {
        assert tmp.next == Succ(ring, k);
        p := tmp;
        tmp := tmp.next;
        k := k + 1;
      }
      prev := p;
    }

    /** The list without the CPU whose last user has gone. */
    method Unlist(cpu: CpuInfo, ghost at: nat)
      requires Circular() && Carries(ring, nums, counts) && at < |ring| && ring[at] == cpu
      modifies this`head, this`ring, this`nums, this`counts, ring`next
      ensures Circular() && Carries(ring, nums, counts) && cpu !in ring
      ensures nums == old(nums)[..at] + old(nums)[at + 1..]
      ensures counts == old(counts)[..at] + old(counts)[at + 1..]
    {
      ghost var s, ns, cs := ring, nums, counts;
      Remove(cpu, at);
      nums, counts := ns[..at] + ns[at + 1..], cs[..at] + cs[at + 1..];
      CarriesRemoved(s, ns, cs, at);
    }

    /** num_users-- of the CPU at position `at`. */
    method DropUser(cpu: CpuInfo, ghost at: nat)
      requires Circular() && Carries(ring, nums, counts) && at < |ring| && ring[at] == cpu && counts[at] > 0
      modifies cpu`numUsers, this`counts
      ensures Circular() && Carries(ring, nums, counts)
      ensures counts == old(counts)[at := old(counts)[at] - 1]
    {
      cpu.numUsers := cpu.numUsers - 1;
      counts := counts[at := counts[at] - 1];
    }

    /** free_cpu, as PAPI calls it to shut a CPU down: one user less, and off the
        ring, cleared, with the last one. */
    method Free(cpu: CpuInfo)
      requires Valid() && Recorded() && cpu in ring
      modifies this, ring
      ensures Valid() && Recorded() && calls == old(calls) + [Release(old(cpu.cpuNum))]
      ensures users == Released(old(users), old(cpu.cpuNum))
      ensures cpu in ring <==> old(cpu.cpuNum) in users
    {
      ghost var at :| 0 <= at < |ring| && ring[at] == cpu;
      ghost var n := nums[at];
      TallyReleased(nums, counts, users, at);
      users := Released(users, n);
      calls := calls + [Release(n)];
      assert calls[..|calls| - 1] == old(calls);
      DropUser(cpu, at);
      if cpu.numUsers == 0 {
        Unlist(cpu, at);
        Clear(cpu);
      }
    }

    /** The memset before the block is given back. */
    method Clear(cpu: CpuInfo)
      requires Circular() && Carries(ring, nums, counts) && cpu !in ring
      modifies cpu
      ensures Circular() && Carries(ring, nums, counts)
    {
      cpu.cpuNum, cpu.next, cpu.numUsers := 0, null, 0;
    }
  }
}
