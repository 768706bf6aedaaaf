/** The master/worker version: a master schedules one task per worker and phase, every worker
    sorts a private copy of its block and writes its two border cells back to the shared buffer,
    and the master ends the farm after an odd phase in which no worker found an inverted pair.
    A send of the farm is an append to the master's outbox; the driver delivers the outbox in
    order, one worker at a time. */
module Farm {
  import opened Kernel
  import opened Ranges
  import opened Blocks
  import opened Padded
  import opened Threads

  /** A task: the phase to run (0 even, anything else odd) and the worker's test result. */
  datatype Task = Task(phase: int, test: int)

  /** A send of the master: the task for one worker. */
  datatype Send = Send(worker: nat, task: Task)

  datatype Option<T> = None | Some(value: T)

  /** What the master's svc returns: carry on, or end of stream. */
  datatype Signal = GoOn | Eos

  // The worker.

  /** The cells a worker holds before its pass: in phase 0 its first cell refreshed from the
      previous block's last shared cell, in phase 1 its last cell from the next block's first
      shared cell; otherwise as they were. */
  function Refreshed(b: seq<int>, v: seq<int>, t: seq<Range>, id: nat, phase: int): (r: seq<int>)
    requires Laid(t, |v|) && id < |t| && |b| >= 1
    ensures |r| == |b|
  {
    if id != 0 && phase == 0 then b[0 := v[t[id - 1].lStart + t[id - 1].size]]
    else if id != |t| - 1 && phase == 1 then b[|b| - 1 := v[t[id + 1].lStart]]
    else b
  }

  /** The worker's cells after its svc: the refreshed cells after the pass of the task's phase. */
  function Served(b: seq<int>, v: seq<int>, t: seq<Range>, id: nat, phase: int): (r: seq<int>)
    requires Laid(t, |v|) && id < |t| && |b| >= 1
    ensures |r| == |b|
  {
    Pass(Refreshed(b, v, t, id, phase), if phase == 0 then 0 else 1)
  }

  /** The test a worker reports: 1 when its odd pass found an inverted pair, else 0; an even
      task always reports 0. */
  function TestOf(b: seq<int>, v: seq<int>, t: seq<Range>, id: nat, phase: int): (r: int)
    requires Laid(t, |v|) && id < |t| && |b| >= 1
    ensures r == 0 || r == 1
    ensures phase == 0 ==> r == 0
  {
    if phase != 0 && Swaps(Refreshed(b, v, t, id, phase), 1) > 0 then 1 else 0
  }

  /** The shared buffer after worker id writes back the two border cells of its copy nb. */
  function WrittenBack(v: seq<int>, t: seq<Range>, id: nat, nb: seq<int>): (r: seq<int>)
    requires Laid(t, |v|) && id < |t| && |nb| == t[id].size + 1
    ensures |r| == |v|
    ensures r[t[id].lStart] == nb[0] && r[t[id].lStart + t[id].size] == Last(nb)
  {
    v[t[id].lStart := nb[0]][t[id].lStart + t[id].size := Last(nb)]
  }

  class Worker {
    const id: nat
    const size: nat
    const lStart: nat
    const lEnd: nat
    const local: array<int>

    /** Worker id, bound to its range of the shared buffer and of the range table. */
    predicate Bound(vec: array<int>, t: seq<Range>)
    {
      && Laid(t, vec.Length) && id < |t|
      && size == t[id].size && lStart == t[id].lStart && lEnd == lStart + size
      && local.Length == size + 1 && local != vec
    }

    /** The constructor: a private copy of the size + 1 cells from lStart. */
    constructor (id: nat, vec: array<int>, t: seq<Range>)
      requires Laid(t, vec.Length) && id < |t|
      ensures Bound(vec, t) && this.id == id
      ensures fresh(local) && local[..] == Block(vec[..], t, id)
    {
      this.id := id;
      var l: nat := t[id].lStart;
      var n: nat := t[id].size;
      size := n;
      lStart := l;
      lEnd := l + n;
      var copy := new int[n + 1];
      var k := 0;
      while k < n + 1
        invariant 0 <= k <= n + 1
        invariant copy[..k] == vec[l..l + k]
      {
        copy[k] := vec[l + k];
        k := k + 1;
      }
      local := copy;
    }

    /** The refresh at the head of svc. */
    method Refresh(phase: int, vec: array<int>, t: seq<Range>)
      requires Bound(vec, t)
      modifies local
      ensures local[..] == Refreshed(old(local[..]), vec[..], t, id, phase)
    {
      if id != 0 && phase == 0 {
        local[0] := vec[t[id - 1].lStart + t[id - 1].size];
      }
      if id != |t| - 1 && phase == 1 {
        local[size] := vec[t[id + 1].lStart];
      }
    }

    /** svc: refresh a border cell from the shared buffer, run the task's pass over the private
        copy, write the two border cells back, and report the test in the task. */
    method Svc(task: Task, vec: array<int>, t: seq<Range>) returns (reply: Task)
      requires Bound(vec, t)
      modifies local, vec
      ensures local[..] == Served(old(local[..]), old(vec[..]), t, id, task.phase)
      ensures reply == Task(task.phase, TestOf(old(local[..]), old(vec[..]), t, id, task.phase))
      ensures vec[..] == WrittenBack(old(vec[..]), t, id, local[..])
    {
      var test := false;
      Refresh(task.phase, vec, t);
      ghost var r := local[..];
      assert local[0..size + 1] == r;
      if task.phase == 0 {
        EvenPass(local, 0, size);
      } else {
        test := OddPass(local, 0, size);
      }
      assert local[0..size + 1] == local[..];
      vec[lStart] := local[0];
      vec[lEnd] := local[size];
      reply := task.(test := if test then 1 else 0);
    }

    /** svc_end: the first size cells of the private copy go back to the shared buffer. */
    method SvcEnd(vec: array<int>, t: seq<Range>)
      requires Bound(vec, t)
      modifies vec
      ensures vec[..] == old(vec[..lStart]) + local[..size] + old(vec[lStart + size..])
    {
      var k := 0;
      while k < size
        invariant 0 <= k <= size
        invariant forall x :: 0 <= x < vec.Length ==>
          vec[x] == if lStart <= x < lStart + k then local[x - lStart] else old(vec[x])
      {
        vec[lStart + k] := local[k];
        k := k + 1;
      }
      ghost var want := old(vec[..lStart]) + local[..size] + old(vec[lStart + size..]);
      forall x | 0 <= x < vec.Length ensures vec[x] == want[x] {
        if x < lStart {
          assert want[x] == old(vec[..lStart])[x];
        } else if x < lStart + size {
          assert want[x] == local[..size][x - lStart];
        } else {
          assert want[x] == old(vec[lStart + size..])[x - lStart - size];
        }
      }
      assert vec[..] == want;
    }
  }

  // The master.

  datatype MasterState = MasterState(ntask: int, test: int, tasks: seq<Option<Task>>, outbox: seq<Send>)

  predicate AllSet(ts: seq<Option<Task>>)
  {
    forall i :: 0 <= i < |ts| ==> ts[i].Some?
  }

  /** One send per task, to worker i for task i. */
  function Broadcast(ts: seq<Option<Task>>): (s: seq<Send>)
    requires AllSet(ts)
    ensures |s| == |ts|
  {
    seq(|ts|, i requires 0 <= i < |ts| => Send(i, ts[i].value))
  }

  /** Every task with its test cleared and its phase toggled (nonzero to 0, 0 to 1). */
  function Toggle(ts: seq<Option<Task>>): (r: seq<Option<Task>>)
    requires AllSet(ts)
    ensures |r| == |ts| && AllSet(r)
  {
    seq(|ts|, i requires 0 <= i < |ts| => Some(Task(if ts[i].value.phase != 0 then 0 else 1, 0)))
  }

  /** Master::svc as a function of the master's state and the incoming task (None for the null
      task that starts the farm). ntask counts the sends not yet answered; the stream ends only
      on the last reply of an odd phase with no test raised. */
  function MasterSvc(s: MasterState, nw: nat, task: Option<Task>): (r: (MasterState, Signal))
    requires |s.tasks| == nw && (task.Some? ==> AllSet(s.tasks))
    ensures |r.0.tasks| == nw
    ensures task.None? || r.1 == GoOn ==> AllSet(r.0.tasks)
    ensures r.1 == Eos <==>
      task.Some? && task.value.phase == 1 && s.test + task.value.test == 0 && s.ntask == 1
    ensures |r.0.outbox| - r.0.ntask == |s.outbox| - s.ntask + if task.Some? then 1 else 0
    ensures task.Some? && s.ntask == 1 && r.1 == GoOn ==>
      r.0.ntask == nw && r.0.test == 0 && r.0.tasks == Toggle(s.tasks)
      && r.0.outbox == s.outbox + Broadcast(r.0.tasks)
    ensures task.Some? && s.ntask != 1 ==>
      r.0 == s.(ntask := s.ntask - 1, test := s.test + task.value.test)
  {
    match task
    case None =>
      var ts := seq(nw, _ => Some(Task(0, 0)));
      (s.(ntask := s.ntask + nw, tasks := ts, outbox := s.outbox + Broadcast(ts)), GoOn)
    case Some(reply) =>
      var acc, n := s.test + reply.test, s.ntask - 1;
      if reply.phase == 1 && acc == 0 && n == 0 then
        (s.(ntask := n, test := acc), Eos)
      else if n == 0 then
        var ts := Toggle(s.tasks);
        (s.(ntask := nw, test := 0, tasks := ts, outbox := s.outbox + Broadcast(ts)), GoOn)
      else
        (s.(ntask := n, test := acc), GoOn)
  }

  class Master {
    const nw: nat
    var ntask: int
    var test: int
    var tasks: seq<Option<Task>>
    var outbox: seq<Send>

    function State(): MasterState
      reads this
    {
      MasterState(ntask, test, tasks, outbox)
    }

    constructor (nw: nat)
      ensures this.nw == nw && State() == MasterState(0, 0, seq(nw, _ => None), [])
    {
      this.nw := nw;
      ntask := 0;
      test := 0;
      tasks := seq(nw, _ => None);
      outbox := [];
    }

    /** Sends task i to worker i for every i, counting each send in ntask. */
    method SendAll()
      requires |tasks| == nw && AllSet(tasks)
      modifies this
      ensures test == old(test) && tasks == old(tasks) && AllSet(tasks)
      ensures ntask == old(ntask) + nw && outbox == old(outbox) + Broadcast(tasks)
    {
      var i := 0;
      while i < nw
        invariant 0 <= i <= nw && tasks == old(tasks) && test == old(test)
        invariant ntask == old(ntask) + i
        invariant outbox == old(outbox) + Broadcast(tasks)[..i]
      {
        ntask := ntask + 1;
        outbox := outbox + [Send(i, tasks[i].value)];
        assert Broadcast(tasks)[..i + 1] == Broadcast(tasks)[..i] + [Send(i, tasks[i].value)];
        i := i + 1;
      }
    }

    /** Master::svc. */
    method Svc(task: Option<Task>) returns (sig: Signal)
      requires |tasks| == nw && (task.Some? ==> AllSet(tasks))
      modifies this
      ensures State() == MasterSvc(old(State()), nw, task).0
      ensures sig == MasterSvc(old(State()), nw, task).1
    {
      if task.None? {
        tasks := seq(nw, _ => Some(Task(0, 0)));
        SendAll();
        return GoOn;
      }
      test := test + task.value.test;
      ntask := ntask - 1;
      if task.value.phase == 1 && test == 0 && ntask == 0 {
        return Eos;
      }
      if ntask == 0 {
        test := 0;
        tasks := Toggle(tasks);
        SendAll();
      }
      return GoOn;
    }
  }

  // The farm run.

  /** The master waits for the replies to a phase-p broadcast: nothing outstanding has been
      answered yet, and the last nw sends are task (p, 0) to worker i. */
  predicate Ready(s: MasterState, nw: nat, p: int)
  {
    && s.ntask == nw && s.test == 0
    && s.tasks == seq(nw, _ => Some(Task(p, 0)))
    && |s.outbox| >= nw
    && (forall i :: 0 <= i < nw ==> s.outbox[|s.outbox| - nw + i] == Send(i, Task(p, 0)))
  }

  /** The workers, bound in order to the ranges, with private copies distinct from each other. */
  predicate Crew(ws: seq<Worker>, vec: array<int>, t: seq<Range>)
  {
    && |ws| == |t| && Laid(t, vec.Length)
    && (forall i :: 0 <= i < |ws| ==> ws[i].Bound(vec, t) && ws[i].id == i)
    && (forall i, j :: 0 <= i < j < |ws| ==> ws[i].local != ws[j].local)
  }

  function Locals(ws: seq<Worker>): (bs: seq<seq<int>>)
    reads set i | 0 <= i < |ws| :: ws[i].local
    ensures |bs| == |ws|
  {
    seq(|ws|, i requires 0 <= i < |ws| reads set k | 0 <= k < |ws| :: ws[k].local => ws[i].local[..])
  }

  /** The shared buffer holds every worker's two border cells as the worker last wrote them. */
  predicate Mirror(v: seq<int>, t: seq<Range>, bs: seq<seq<int>>)
  {
    && Laid(t, |v|) && |bs| == |t|
    && (forall j :: 0 <= j < |t| ==> |bs[j]| == t[j].size + 1)
    && (forall j :: 0 <= j < |t| ==> v[t[j].lStart] == bs[j][0])
    && (forall j :: 0 <= j < |t| ==> v[t[j].lStart + t[j].size] == Last(bs[j]))
  }

  lemma MirrorShaped(v: seq<int>, t: seq<Range>, bs: seq<seq<int>>)
    requires Mirror(v, t, bs)
    ensures Shaped(bs)
  {
  }

  /** The blocks of a buffer are mirrored in it. */
  lemma MirrorInitial(v: seq<int>, t: seq<Range>)
    requires Laid(t, |v|)
    ensures Mirror(v, t, BlocksOf(v, t))
  {
  }

  /** With the borders mirrored, an even task refreshes a worker's copy exactly as the
      simultaneous even phase does, and an odd task as the simultaneous odd phase does. */
  lemma RefreshedMirror(v: seq<int>, t: seq<Range>, bs: seq<seq<int>>, id: nat)
    requires Mirror(v, t, bs) && id < |t|
    ensures Shaped(bs)
    ensures Refreshed(bs[id], v, t, id, 0) == RefreshLeft(bs, id)
    ensures Refreshed(bs[id], v, t, id, 1) == RefreshRight(bs, id)
    ensures TestOf(bs[id], v, t, id, 1) == if Swaps(RefreshRight(bs, id), 1) > 0 then 1 else 0
  {
  }

  /** A worker's border write-back keeps the buffer mirroring the blocks. */
  lemma MirrorStep(v: seq<int>, t: seq<Range>, bs: seq<seq<int>>, id: nat, nb: seq<int>)
    requires Mirror(v, t, bs) && id < |t| && |nb| == t[id].size + 1
    ensures Mirror(WrittenBack(v, t, id, nb), t, bs[id := nb])
  {
    var l, e := t[id].lStart, t[id].lStart + t[id].size;
    var v' := WrittenBack(v, t, id, nb);
    var bs' := bs[id := nb];
    forall j | 0 <= j < |t| && j != id
      ensures v'[t[j].lStart] == bs'[j][0] && v'[t[j].lStart + t[j].size] == Last(bs'[j])
    {
      if j < id {
        LaidOrdered(t, |v|, j, id);
      } else {
        LaidOrdered(t, |v|, id, j);
      }
    }
  }

  /** One phase of the farm: the driver hands the outbox's phase-p sends to the workers in
      order and feeds each reply back to the master. The blocks take the simultaneous phase;
      after an even phase the master broadcasts the odd phase, after an odd phase it ends the
      stream exactly when no worker reported a test, and otherwise broadcasts the even phase. */
  method RunPhase(master: Master, ws: seq<Worker>, vec: array<int>, t: seq<Range>, ghost p: int)
    returns (sig: Signal)
    requires p == 0 || p == 1
    requires Crew(ws, vec, t) && master.nw == |t| && Ready(master.State(), |t|, p)
    requires Mirror(vec[..], t, Locals(ws))
    modifies master, vec, set i | 0 <= i < |ws| :: ws[i].local
    ensures Mirror(vec[..], t, Locals(ws))
    ensures Shaped(old(Locals(ws)))
    ensures p == 0 ==> Locals(ws) == ParEven(old(Locals(ws))) && sig == GoOn
    ensures p == 1 ==> Locals(ws) == ParOdd(old(Locals(ws)))
    ensures p == 1 ==> (sig == Eos <==> CondFrom(old(Locals(ws)), 0) == 0)
    ensures sig == GoOn ==> Ready(master.State(), |t|, 1 - p)
  {
    ghost var e := Locals(ws);
    MirrorShaped(vec[..], t, e);
    ghost var done := PhaseOf(e, p);
    var nw := |t|;
    var base := |master.outbox| - nw;
    ghost var sends := master.outbox;
    assert |sends| == base + nw;
    assert forall i :: 0 <= i < nw ==> sends[base + i] == Send(i, Task(p, 0));
    assert Halfway(done, e, 0) == e;
    assert Pending(master.State(), sends, base, nw, e, p, 0);
    sig := GoOn;
    var id := 0;
    while id < nw
      invariant 0 <= id <= nw && Crew(ws, vec, t) && master.nw == nw
      invariant PhaseAt(Locals(ws), vec[..], master.State(), t, e, p, id, sig, sends, base)
    {
      sig := Step(master, ws, vec, t, e, p, id, sends, base);
      id := id + 1;
    }
    HalfwayDone(done, e);
  }

  /** The blocks after the simultaneous phase p. */
  function PhaseOf(e: seq<seq<int>>, p: int): (r: seq<seq<int>>)
    requires Shaped(e)
    ensures |r| == |e|
  {
    if p == 0 then ParEven(e) else ParOdd(e)
  }

  /** The master in the middle of phase p, sends base.. being that phase's broadcast, before
      the reply to the id-th send: id replies (the ones before) are counted and added to test. */
  predicate Pending(s: MasterState, sends: seq<Send>, base: nat, nw: nat, e: seq<seq<int>>, p: int, id: nat)
    requires Shaped(e)
  {
    && id < nw && id <= |e|
    && |sends| == base + nw && (forall i :: 0 <= i < nw ==> sends[base + i] == Send(i, Task(p, 0)))
    && s.ntask == nw - id && s.tasks == seq(nw, _ => Some(Task(p, 0))) && s.outbox == sends
    && s.test == if p == 0 then 0 else CondFrom(e, 0) - CondFrom(e, id)
  }

  /** Phase p under way, id sends of it answered: the blocks are Halfway, the buffer mirrors
      them, and the master is Pending before the last reply and ended or Ready after it. */
  predicate PhaseAt(bs: seq<seq<int>>, v: seq<int>, s: MasterState, t: seq<Range>, e: seq<seq<int>>,
                    p: int, id: nat, sig: Signal, sends: seq<Send>, base: nat)
  {
    && (p == 0 || p == 1) && Shaped(e) && |e| == |t| && id <= |t|
    && bs == Halfway(PhaseOf(e, p), e, id)
    && Mirror(v, t, bs)
    && (id < |t| ==> Pending(s, sends, base, |t|, e, p, id) && sig == GoOn)
    && (id == |t| ==> (p == 0 ==> sig == GoOn) && (p == 1 ==> (sig == Eos <==> CondFrom(e, 0) == 0)))
    && (id == |t| && sig == GoOn ==> Ready(s, |t|, 1 - p))
  }

  /** The facts a step establishes, gathered into the phase invariant at the next send. */
  lemma StepDone(bs: seq<seq<int>>, v: seq<int>, s: MasterState, t: seq<Range>, e: seq<seq<int>>,
                 p: int, id: nat, sig: Signal, sends: seq<Send>, base: nat)
    requires (p == 0 || p == 1) && Shaped(e) && |e| == |t| && id < |t|
    requires bs == Halfway(PhaseOf(e, p), e, id + 1) && Mirror(v, t, bs)
    requires id + 1 < |e| ==> Pending(s, sends, base, |e|, e, p, id + 1) && sig == GoOn
    requires id + 1 == |e| ==> (p == 0 ==> sig == GoOn) && (p == 1 ==> (sig == Eos <==> CondFrom(e, 0) == 0))
    requires id + 1 == |e| && sig == GoOn ==> Ready(s, |e|, 1 - p)
    ensures PhaseAt(bs, v, s, t, e, p, id + 1, sig, sends, base)
  {
  }

  /** One send of a phase delivered and its reply fed back to the master. */
  method Step(master: Master, ws: seq<Worker>, vec: array<int>, t: seq<Range>, ghost e: seq<seq<int>>,
              ghost p: int, id: nat, ghost sends: seq<Send>, base: nat)
    returns (sig: Signal)
    requires Crew(ws, vec, t) && master.nw == |t| && id < |t|
    requires PhaseAt(Locals(ws), vec[..], master.State(), t, e, p, id, GoOn, sends, base)
    modifies master, vec, ws[id].local
    ensures PhaseAt(Locals(ws), vec[..], master.State(), t, e, p, id + 1, sig, sends, base)
  {
    var send := master.outbox[base + id];
    assert send == Send(id, Task(p, 0));
    var reply := Serve(ws, vec, t, e, id, send.task);
    assert reply.phase == p;
    ghost var bs, v := Locals(ws), vec[..];
    assert bs == Halfway(PhaseOf(e, p), e, id + 1) && Mirror(v, t, bs);
    sig := Answer(master, reply, e, p, id, sends, base, ws, vec);
    StepDone(bs, v, master.State(), t, e, p, id, sig, sends, base);
  }

  /** The worker of the id-th send of a phase serves it: the first id blocks already hold the
      simultaneous phase, and now block id does too. */
  method Serve(ws: seq<Worker>, vec: array<int>, t: seq<Range>, ghost e: seq<seq<int>>, id: nat, task: Task)
    returns (reply: Task)
    requires task.phase == 0 || task.phase == 1
    requires Crew(ws, vec, t) && id < |ws| && Shaped(e) && |e| == |ws|
    requires Locals(ws) == Halfway(PhaseOf(e, task.phase), e, id)
    requires Mirror(vec[..], t, Locals(ws))
    modifies ws[id].local, vec
    ensures Locals(ws) == Halfway(PhaseOf(e, task.phase), e, id + 1)
    ensures Mirror(vec[..], t, Locals(ws))
    ensures reply.phase == task.phase
    ensures reply.test == if task.phase == 0 then 0 else if Swaps(RefreshRight(e, id), 1) > 0 then 1 else 0
  {
    ghost var done := PhaseOf(e, task.phase);
    ghost var before := vec[..];
    ghost var cur := Locals(ws);
    if task.phase == 0 {
      EvenHalfway(e, id);
    } else {
      OddHalfway(e, id);
    }
    RefreshedMirror(before, t, cur, id);
    reply := Deliver(ws, vec, t, id, task);
    assert Served(cur[id], before, t, id, task.phase) == done[id];
    HalfwayStep(done, e, id);
  }

  /** The master takes the reply to the id-th send of phase p: before the last reply it
      counts the reply, and the last one ends the stream or broadcasts the other phase. */
  method Answer(master: Master, reply: Task, ghost e: seq<seq<int>>, ghost p: int, ghost id: nat,
                ghost sends: seq<Send>, ghost base: nat, ghost ws: seq<Worker>, ghost vec: array<int>)
    returns (sig: Signal)
    requires p == 0 || p == 1
    requires Shaped(e) && master.nw == |e| && Pending(master.State(), sends, base, |e|, e, p, id)
    requires reply.phase == p
    requires reply.test == if p == 0 then 0 else if Swaps(RefreshRight(e, id), 1) > 0 then 1 else 0
    modifies master
    ensures id + 1 < |e| ==> Pending(master.State(), sends, base, |e|, e, p, id + 1) && sig == GoOn
    ensures id + 1 == |e| ==> (p == 0 ==> sig == GoOn) && (p == 1 ==> (sig == Eos <==> CondFrom(e, 0) == 0))
    ensures id + 1 == |e| && sig == GoOn ==> Ready(master.State(), |e|, 1 - p)
    ensures Locals(ws) == old(Locals(ws)) && vec[..] == old(vec[..])
  {
    ghost var ms := master.State();
    MidPhase(ms, master.nw, p, id, reply);
    PhaseTally(e, id, p, ms.test, reply.test);
    sig := master.Svc(Some(reply));
  }

  /** Worker id serves a task: its private copy becomes the served cells and the shared buffer
      keeps mirroring the workers' borders. */
  method Deliver(ws: seq<Worker>, vec: array<int>, t: seq<Range>, id: nat, task: Task)
    returns (reply: Task)
    requires Crew(ws, vec, t) && id < |ws| && Mirror(vec[..], t, Locals(ws))
    modifies ws[id].local, vec
    ensures Locals(ws) == old(Locals(ws))[id := Served(old(Locals(ws))[id], old(vec[..]), t, id, task.phase)]
    ensures Mirror(vec[..], t, Locals(ws))
    ensures reply == Task(task.phase, TestOf(old(Locals(ws))[id], old(vec[..]), t, id, task.phase))
  {
    ghost var before, cur := vec[..], Locals(ws);
    reply := ws[id].Svc(task, vec, t);
    forall j | 0 <= j < |ws| ensures Locals(ws)[j] == cur[id := ws[id].local[..]][j] {
      if j != id {
        assert ws[j].local[..] == old(ws[j].local[..]);
      }
    }
    ghost var nb := ws[id].local[..];
    assert Locals(ws) == cur[id := nb];
    MirrorStep(before, t, cur, id, nb);
  }

  /** The master during a phase: replies before the last only count down ntask and add their
      tests; the last one ends the stream or broadcasts the other phase. */
  lemma MidPhase(s: MasterState, nw: nat, p: int, id: nat, reply: Task)
    requires p == 0 || p == 1
    requires id < nw && s.ntask == nw - id && s.tasks == seq(nw, _ => Some(Task(p, 0)))
    requires reply.phase == p
    ensures id + 1 < nw ==>
      MasterSvc(s, nw, Some(reply)) == (s.(ntask := nw - id - 1, test := s.test + reply.test), GoOn)
    ensures id + 1 == nw ==>
      (MasterSvc(s, nw, Some(reply)).1 == Eos <==> p == 1 && s.test + reply.test == 0)
    ensures id + 1 == nw && MasterSvc(s, nw, Some(reply)).1 == GoOn ==>
      Ready(MasterSvc(s, nw, Some(reply)).0, nw, 1 - p)
  {
    var r := MasterSvc(s, nw, Some(reply));
    if id + 1 == nw && r.1 == GoOn {
      assert Toggle(s.tasks) == seq(nw, _ => Some(Task(1 - p, 0)));
      assert forall i :: 0 <= i < nw ==> r.0.outbox[|r.0.outbox| - nw + i] == Broadcast(r.0.tasks)[i];
    }
  }

  /** How the master's test evolves over a phase: even replies add 0, odd replies count the
      workers whose odd pass found an inverted pair. */
  lemma PhaseTally(e: seq<seq<int>>, id: nat, p: int, acc: int, test: int)
    requires Shaped(e) && id < |e| && (p == 0 || p == 1)
    requires acc == if p == 0 then 0 else CondFrom(e, 0) - CondFrom(e, id)
    requires test == if p == 0 then 0 else if Swaps(RefreshRight(e, id), 1) > 0 then 1 else 0
    ensures acc + test == if p == 0 then 0 else CondFrom(e, 0) - CondFrom(e, id + 1)
  {
  }

  /** After the stream ends, the workers' svc_end has written every block's owned cells back;
      the last block's last cell is still the one its last svc wrote. Read the even way the
      buffer then holds the workers' cells. */
  lemma FinalView(v: seq<int>, t: seq<Range>, bs: seq<seq<int>>)
    requires Laid(t, |v|) && Mirror(v, t, bs)
    requires forall j :: 0 <= j < |t| ==> v[t[j].lStart..t[j].lStart + t[j].size] == bs[j][..t[j].size]
    ensures Shaped(bs) && EvenView(BlocksOf(v, t)) == EvenView(bs)
  {
    var b := BlocksOf(v, t);
    forall j | 0 <= j < |t| - 1 ensures b[j][..|b[j]| - 1] == bs[j][..|bs[j]| - 1] {
      assert b[j][..|b[j]| - 1] == v[t[j].lStart..t[j].lStart + t[j].size];
    }
    var n := |t| - 1;
    assert b[n] == v[t[n].lStart..t[n].lStart + t[n].size] + [v[t[n].lStart + t[n].size]];
    assert bs[n] == bs[n][..t[n].size] + [Last(bs[n])];
    EvenFromSame(b, bs, 0);
  }

  /** The workers' svc_end, one after the other. */
  method EndAll(ws: seq<Worker>, vec: array<int>, t: seq<Range>)
    requires Crew(ws, vec, t) && Mirror(vec[..], t, Locals(ws))
    modifies vec
    ensures Mirror(vec[..], t, Locals(ws))
    ensures forall j :: 0 <= j < |t| ==>
      vec[t[j].lStart..t[j].lStart + t[j].size] == Locals(ws)[j][..t[j].size]
    ensures Locals(ws) == old(Locals(ws))
    ensures Shaped(Locals(ws)) && EvenView(BlocksOf(vec[..], t)) == EvenView(Locals(ws))
  {
    ghost var bs := Locals(ws);
    var i := 0;
    while i < |ws|
      invariant 0 <= i <= |ws| && Locals(ws) == bs
      invariant Mirror(vec[..], t, bs)
      invariant forall j :: 0 <= j < i ==> vec[t[j].lStart..t[j].lStart + t[j].size] == bs[j][..t[j].size]
    {
      ghost var before := vec[..];
      ws[i].SvcEnd(vec, t);
      EndStep(before, vec[..], t, bs, i);
      i := i + 1;
    }
    FinalView(vec[..], t, bs);
  }

  /** svc_end of worker i writes only cells owned by block i; its own border cells already hold
      what it writes there. */
  lemma EndStep(before: seq<int>, after: seq<int>, t: seq<Range>, bs: seq<seq<int>>, i: nat)
    requires Mirror(before, t, bs) && i < |t|
    requires forall j :: 0 <= j < i ==> before[t[j].lStart..t[j].lStart + t[j].size] == bs[j][..t[j].size]
    requires after == before[..t[i].lStart] + bs[i][..t[i].size] + before[t[i].lStart + t[i].size..]
    ensures Mirror(after, t, bs)
    ensures forall j :: 0 <= j <= i ==> after[t[j].lStart..t[j].lStart + t[j].size] == bs[j][..t[j].size]
  {
    var l, n := t[i].lStart, t[i].size;
    assert |after| == |before|;
    forall x | 0 <= x < |before| && !(l <= x < l + n) ensures after[x] == before[x] {
      if x < l {
        assert after[x] == before[..l][x];
      } else {
        assert after[x] == before[l + n..][x - l - n];
      }
    }
    forall x | l <= x < l + n ensures after[x] == bs[i][x - l] {
      assert after[x] == bs[i][..n][x - l];
    }
    forall j | 0 <= j < |t| && j != i
      ensures after[t[j].lStart] == before[t[j].lStart]
      ensures after[t[j].lStart + t[j].size] == before[t[j].lStart + t[j].size]
      ensures after[t[j].lStart..t[j].lStart + t[j].size] == before[t[j].lStart..t[j].lStart + t[j].size]
    {
      if j < i {
        LaidOrdered(t, |before|, j, i);
      } else {
        LaidOrdered(t, |before|, i, j);
      }
    }
    assert after[l..l + n] == bs[i][..n];
    if n > 0 {
      assert after[l] == bs[i][0];
    }
  }

  /** The workers' constructors, in worker order: each takes a fresh private copy of its block. */
  method Hire(vec: array<int>, t: seq<Range>) returns (ws: seq<Worker>)
    requires Laid(t, vec.Length)
    ensures Crew(ws, vec, t) && Locals(ws) == BlocksOf(vec[..], t)
    ensures forall j :: 0 <= j < |ws| ==> fresh(ws[j].local)
  {
    ghost var e0 := BlocksOf(vec[..], t);
    ws := [];
    var i := 0;
    while i < |t|
      invariant 0 <= i <= |t| && |ws| == i
      invariant forall j :: 0 <= j < i ==> ws[j].Bound(vec, t) && ws[j].id == j
      invariant Locals(ws) == e0[..i]
      invariant forall j, k :: 0 <= j < k < i ==> ws[j].local != ws[k].local
      invariant forall j :: 0 <= j < i ==> fresh(ws[j].local)
    {
      var w := new Worker(i, vec, t);
      LocalsSnoc(ws, w);
      ws := ws + [w];
      i := i + 1;
    }
    assert e0[..|t|] == e0;
  }

  /** Hiring one more worker appends its copy to the copies held. */
  lemma LocalsSnoc(ws: seq<Worker>, w: Worker)
    ensures Locals(ws + [w]) == Locals(ws) + [w.local[..]]
  {
    assert forall j :: 0 <= j < |ws| ==> (ws + [w])[j] == ws[j];
  }

  /** The master's stream of phases, even then odd, until it ends the stream: the workers then
      hold the blocks the simultaneous rounds reach, read the even way the kernel's
      OddEvenSorted of what they held read the odd way. */
  method Rounds(master: Master, ws: seq<Worker>, vec: array<int>, t: seq<Range>)
    requires Crew(ws, vec, t) && master.nw == |t| && Ready(master.State(), |t|, 0)
    requires Mirror(vec[..], t, Locals(ws))
    modifies master, vec, set i | 0 <= i < |ws| :: ws[i].local
    ensures Mirror(vec[..], t, Locals(ws))
    ensures Shaped(old(Locals(ws)))
    ensures EvenView(Locals(ws)) == OddEvenSorted(OddView(old(Locals(ws))))
  {
    ghost var e0 := Locals(ws);
    MirrorShaped(vec[..], t, e0);
    var nw := |t|;
    while true
      invariant Crew(ws, vec, t) && master.nw == nw && Ready(master.State(), nw, 0)
      invariant Mirror(vec[..], t, Locals(ws))
      invariant Shaped(Locals(ws))
      invariant OddEvenSorted(OddView(Locals(ws))) == OddEvenSorted(OddView(e0))
      decreases Inversions(OddView(Locals(ws)))
    {
      ghost var bs := Locals(ws);
      var sig := RunPhase(master, ws, vec, t, 0);
      ghost var mid := Locals(ws);
      sig := RunPhase(master, ws, vec, t, 1);
      RoundDone(e0, bs, mid, Locals(ws), sig == Eos);
      if sig == Eos {
        break;
      }
    }
  }

  /** A round of the farm, an even and then an odd phase, ends the stream with the sorted
      logical array in place or keeps the result the sort reaches and removes inversions. */
  lemma RoundDone(e0: seq<seq<int>>, bs: seq<seq<int>>, mid: seq<seq<int>>, after: seq<seq<int>>, quiet: bool)
    requires Shaped(e0) && Shaped(bs) && mid == ParEven(bs) && after == ParOdd(mid)
    requires quiet <==> CondFrom(mid, 0) == 0
    requires OddEvenSorted(OddView(bs)) == OddEvenSorted(OddView(e0))
    ensures Shaped(after)
    ensures quiet ==> EvenView(after) == OddEvenSorted(OddView(e0))
    ensures !quiet ==> OddEvenSorted(OddView(after)) == OddEvenSorted(OddView(e0))
    ensures !quiet ==> Inversions(OddView(after)) < Inversions(OddView(bs))
  {
    ParRoundStep(bs);
  }

  /** The master built and started by the null task: it broadcasts the even phase. */
  method Start(nw: nat, ghost ws: seq<Worker>, ghost vec: array<int>) returns (master: Master)
    ensures fresh(master) && master.nw == nw && Ready(master.State(), nw, 0)
    ensures Locals(ws) == old(Locals(ws)) && vec[..] == old(vec[..])
  {
    master := new Master(nw);
    var sig := master.Svc(None);
  }

  /** The farm on the shared buffer: the workers are built, the master starts them, the phases
      run until the master ends the stream, and every worker writes its block back. Read the
      even way, the buffer then holds the kernel's OddEvenSorted of the logical array it started
      with read the odd way. */
  method RunFarm(vec: array<int>, t: seq<Range>)
    requires Laid(t, vec.Length)
    modifies vec
    ensures EvenView(BlocksOf(vec[..], t)) == OddEvenSorted(OddView(BlocksOf(old(vec[..]), t)))
  {
    var ws := Hire(vec, t);
    MirrorInitial(vec[..], t);
    var master := Start(|t|, ws, vec);
    Rounds(master, ws, vec, t);
    EndAll(ws, vec, t);
  }

  /** The farm and the rebuild: the result is the kernel's OddEvenSorted of the logical array
      the buffer started with. */
  method FarmSort(vec: array<int>, t: seq<Range>) returns (sorted: seq<int>)
    requires Laid(t, vec.Length) && t[|t| - 1].size >= 1
    modifies vec
    ensures sorted == OddEvenSorted(OddView(BlocksOf(old(vec[..]), t)))
  {
    RunFarm(vec, t);
    sorted := Rebuild(vec, t);
  }

  /** The master/worker program end to end: assignRanges and initializeVector (the same code as
      the thread version), the farm and the rebuild. */
  method FarmProgram(m: nat, nw: int, draw: nat -> int, garbage: nat -> int, c: int)
    returns (sorted: seq<int>)
    requires nw >= 1 && c != 0 && WellFormed(RangeTable(m, nw))
    ensures sorted == OddEvenSorted(Draws(OddUp(m - 1) + 1, draw))
    ensures Sorted(sorted) && multiset(sorted) == multiset(Draws(OddUp(m - 1) + 1, draw))
    ensures |sorted| == if m % 2 == 0 then m else m + 1
  {
    var vec, table := SetUp(m, nw, draw, garbage, c);
    LastRangeEnd(m, nw);
    sorted := FarmSort(vec, table);
  }
}
