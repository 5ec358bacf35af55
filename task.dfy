/**
 * The task list (kernel/src/sys/task.c): tasks are heap objects linked
 * through their `next` and `prev` fields, with the globals task_head,
 * task_tail and current_task.
 *
 * kmalloc and page_directory_create are not called: whether the task
 * could be allocated and the directory address page_directory_create
 * returned (0 for NULL) are parameters.  USER_DATA_SELECTOR is not defined
 * in the kernel's headers, so it is a parameter too.
 */
module Task {
  import opened Kernel

  const KERNEL_TASK_VADDR: u32 := 0x400000
  const KERNEL_TASK_STACK_VADDR: u32 := 0x3FF000

  /** task_registers_t, in declaration order. */
  datatype Registers = Registers(edi: u32, esi: u32, ebp: u32, ebx: u32, edx: u32, ecx: u32, eax: u32,
                                 ip: u32, cs: u32, flags: u32, esp: u32, ss: u32)

  const ZERO_REGISTERS := Registers(0, 0, 0, 0, 0, 0, 0, 0, 0, 0, 0, 0)

  /** The registers task_init gives a new task: zero but for ip, esp and ss. */
  function InitialRegisters(userDataSelector: u32): (r: Registers)
    ensures r.ip == KERNEL_TASK_VADDR && r.esp == KERNEL_TASK_STACK_VADDR && r.ss == userDataSelector
    ensures r.(ip := 0, esp := 0, ss := 0) == ZERO_REGISTERS
  {
    ZERO_REGISTERS.(ip := KERNEL_TASK_VADDR, ss := userDataSelector, esp := KERNEL_TASK_STACK_VADDR)
  }

  /** task_t; the process pointer is never set by this file and is left out. */
  class Task {
    var pageDirectory: u32
    var registers: Registers
    var next: Task?
    var prev: Task?

    /** The memory kmalloc returns; task_init overwrites all of it. */
    constructor ()
      ensures pageDirectory == 0 && registers == ZERO_REGISTERS && next == null && prev == null
    {
      pageDirectory := 0;
      registers := ZERO_REGISTERS;
      next := null;
      prev := null;
    }
  }

  /**
   * task_init: zeroes the task, stores the new page directory and, if there
   * is one, the initial registers.  No directory is ENOMEM.
   */
  method TaskInit(task: Task, directory: u32, userDataSelector: u32) returns (res: u32)
    modifies task
    ensures res == (if directory == 0 then ENOMEM else EOK)
    ensures task.pageDirectory == directory && task.next == null && task.prev == null
    ensures task.registers == (if directory == 0 then ZERO_REGISTERS else InitialRegisters(userDataSelector))
  {
    task.pageDirectory, task.registers, task.next, task.prev := 0, ZERO_REGISTERS, null, null;
    task.pageDirectory := directory;
    if task.pageDirectory == 0 {
      return ENOMEM;
    }
    task.registers := task.registers.(ip := KERNEL_TASK_VADDR);
    task.registers := task.registers.(ss := userDataSelector);
    task.registers := task.registers.(esp := KERNEL_TASK_STACK_VADDR);
    return EOK;
  }

  /** What task_free does, in order. */
  datatype Step = PageDirectoryFree(directory: u32) | Unlink | Kfree

  /** The globals of task.c. */
  class Scheduler {
    var current: Task?
    var tail: Task?
    var head: Task?
    /** The tasks in list order, following `next` from the head. */
    ghost var order: seq<Task>

    /**
     * The forward chain: `head` is the first task, each task's `next` is
     * the one after it, the last one's is NULL, `tail` is the last task,
     * and no task appears twice.
     */
    ghost predicate Linked()
      reads this, order
    {
      (head == null <==> |order| == 0)
      && (|order| > 0 ==> head == order[0] && tail == order[|order| - 1] && order[|order| - 1].next == null)
      && (forall i :: 0 <= i < |order| - 1 ==> order[i].next == order[i + 1])
      && (forall i, j :: 0 <= i < j < |order| ==> order[i] != order[j])
    }

    /** Linked, and each task's `prev` is the one before it (NULL for the head). */
    ghost predicate DoublyLinked()
      reads this, order
    {
      Linked()
      && (|order| > 0 ==> order[0].prev == null)
      && (forall i :: 0 < i < |order| ==> order[i].prev == order[i - 1])
    }

    /** The globals start out NULL. */
    constructor ()
      ensures current == null && tail == null && head == null && order == []
      ensures DoublyLinked()
    {
      current, tail, head := null, null, null;
      order := [];
    }

    /**
     * task_new: allocates and initialises a task and appends it: an empty
     * list gets it as head and tail, otherwise it goes after the tail.  It
     * returns the status code, not the task: EOK for a task created, ENOMEM
     * when the allocation or task_init fails (the list is then unchanged).
     */
    method TaskNew(memoryOk: bool, directory: u32, userDataSelector: u32) returns (res: u32, ghost task: Task?)
      requires Linked()
      modifies this, tail
      ensures res == (if memoryOk && directory != 0 then EOK else ENOMEM)
      ensures res != EOK ==> head == old(head) && tail == old(tail) && order == old(order)
                             && (old(tail) != null ==> old(tail).next == old(tail.next))
      ensures res == EOK ==>
                task != null && fresh(task) && order == old(order) + [task]
                && task.pageDirectory == directory && task.registers == InitialRegisters(userDataSelector)
                && task.next == null && tail == task
                && (old(head) == null ==> head == task && task.prev == null)
                && (old(head) != null ==> head == old(head) && old(tail).next == task && task.prev == old(tail))
      ensures current == old(current) && Linked()
      ensures old(DoublyLinked()) ==> DoublyLinked()
      ensures old(tail) != null ==> old(tail).prev == old(tail.prev)
    {
      task := null;
      if !memoryOk {
        return ENOMEM, null;
      }
      var t := new Task();
      res := TaskInit(t, directory, userDataSelector);
      if res != EOK {
        return res, null;
      }
      task := t;
      if head == null {
        head := t;
        tail := t;
      } else {
        tail.next := t;
        t.prev := tail;
        tail := t;
      }
      order := order + [t];
    }

    /**
     * task_get_next: the task after the current one, or the head when the
     * current task is the last.
     */
    function GetNext(): (r: Task?)
      requires current != null
      reads this, current
      ensures r == (if current.next != null then current.next else head)
    {
      if current.next == null then head else current.next
    }

    /**
     * task_list_remove: unlinks `task` from its predecessor, moves the head
     * and the tail off it, and moves the current task on when it is the
     * current one.  The successor's `prev` is never updated, and the
     * task's own links are left as they are.
     */
    method ListRemove(task: Task)
      modifies this, task.prev
      ensures old(task.prev) != null ==> old(task.prev).next == old(task.next) && old(task.prev).prev == old(task.prev.prev)
      ensures task.next == old(task.next) && task.prev == old(task.prev)
      ensures head == (if old(head) == task then old(task.next) else old(head))
      ensures tail == (if old(tail) == task then old(task.prev) else old(tail))
      ensures current == (if old(current) == task then (if task.next != null then task.next else head) else old(current))
      ensures old(DoublyLinked()) && task in old(order) ==>
                Linked() && order == Without(old(order), task)
                && (var i := IndexOf(old(order), task);
                    i + 1 < |old(order)| ==> old(order)[i + 1].prev == task)
    {
      ghost var found := task in order && DoublyLinked();
      ghost var o := order;
      ghost var i := if found then IndexOf(o, task) else 0;
      ghost var prevTask := task.prev;
      if found {
        WithoutIndex(o, i);
        assert prevTask == (if i > 0 then o[i - 1] else null);
      }
      label Before:
      if task.prev != null {
        task.prev.next := task.next;
      }
      if task == head {
        head := task.next;
      }
      if task == tail {
        tail := task.prev;
      }
      if task == current {
        current := GetNext();
      }
      if found {
        forall k | 0 <= k < |o| - 1 && k + 1 != i && k != i
          ensures o[k].next == o[k + 1]
        {
          assert o[k] != prevTask;
          assert old@Before(o[k].next) == o[k + 1];
        }
        if i != |o| - 1 {
          assert o[|o| - 1] != prevTask;
        }
        order := Without(o, task);
        RemovedLinked(o, i);
      }
    }

    /** Taking out task `i` keeps the forward chain when the links around it are mended. */
    lemma RemovedLinked(o: seq<Task>, i: nat)
      requires 0 <= i < |o| && (forall a, b :: 0 <= a < b < |o| ==> o[a] != o[b])
      requires order == Without(o, o[i])
      requires forall k :: 0 <= k < |o| - 1 && k + 1 != i && k != i ==> o[k].next == o[k + 1]
      requires i > 0 ==> o[i - 1].next == (if i + 1 < |o| then o[i + 1] else null)
      requires i != |o| - 1 ==> o[|o| - 1].next == null
      requires head == (if i == 0 then (if i + 1 < |o| then o[i + 1] else null) else o[0])
      requires tail == (if i == |o| - 1 then (if i > 0 then o[i - 1] else null) else o[|o| - 1])
      ensures Linked()
    {
      WithoutIndex(o, i);
    }

    /**
     * task_free: frees the page directory, unlinks the task, then frees
     * the task; the returned steps are the first and the last of these.
     */
    method TaskFree(task: Task) returns (steps: seq<Step>)
      modifies this, task.prev
      ensures steps == [PageDirectoryFree(old(task.pageDirectory)), Unlink, Kfree]
      ensures old(task.prev) != null ==> old(task.prev).next == old(task.next) && old(task.prev).prev == old(task.prev.prev)
      ensures task.next == old(task.next) && task.prev == old(task.prev)
      ensures head == (if old(head) == task then old(task.next) else old(head))
      ensures tail == (if old(tail) == task then old(task.prev) else old(tail))
      ensures current == (if old(current) == task then (if task.next != null then task.next else head) else old(current))
      ensures old(DoublyLinked()) && task in old(order) ==> Linked() && order == Without(old(order), task)
    {
      steps := [PageDirectoryFree(task.pageDirectory)];
      ListRemove(task);
      steps := steps + [Unlink];
      steps := steps + [Kfree];
    }
  }

  /** The position of `t` in `o`. */
  function IndexOf(o: seq<Task>, t: Task): (i: nat)
    requires t in o
    ensures i < |o| && o[i] == t && forall k :: 0 <= k < i ==> o[k] != t
  {
    if o[0] == t then 0 else 1 + IndexOf(o[1..], t)
  }

  /** `o` with its first occurrence of `t` taken out. */
  function Without(o: seq<Task>, t: Task): (r: seq<Task>)
    ensures t in o ==> r == o[..IndexOf(o, t)] + o[IndexOf(o, t) + 1..]
    ensures t !in o ==> r == o
  {
    if t in o then o[..IndexOf(o, t)] + o[IndexOf(o, t) + 1..] else o
  }

  /** Element `k` of `o` without its element `i`. */
  lemma WithoutIndex(o: seq<Task>, i: nat)
    requires 0 <= i < |o| && (forall a, b :: 0 <= a < b < |o| ==> o[a] != o[b])
    ensures IndexOf(o, o[i]) == i && |Without(o, o[i])| == |o| - 1
    ensures forall k :: 0 <= k < |o| - 1 ==> Without(o, o[i])[k] == (if k < i then o[k] else o[k + 1])
  {
    assert IndexOf(o, o[i]) == i;
  }

  /** After the current task comes the next one in list order, the head after the last. */
  lemma GetNextRoundRobin(s: Scheduler, i: nat)
    requires s.Linked() && i < |s.order| && s.current == s.order[i]
    ensures s.GetNext() == s.order[(i + 1) % |s.order|]
  { }

  /**
   * Because removal leaves the successor's `prev` stale, removing the
   * middle task of three and then the last one corrupts the list: the tail
   * becomes the task removed first, and the head still links to the task
   * removed second.
   */
  method RemoveMiddleThenLast() returns (s: Scheduler, a: Task, b: Task, c: Task)
    ensures s.head == a && a.next == c && s.tail == b
  {
    s := new Scheduler();
    var res: u32;
    ghost var t: Task?;
    res, t := s.TaskNew(true, 0x1000, 0);
    res, t := s.TaskNew(true, 0x2000, 0);
    res, t := s.TaskNew(true, 0x3000, 0);
    assert |s.order| == 3;
    a := s.head;
    b := a.next;
    c := b.next;
    s.ListRemove(b);
    s.ListRemove(c);
  }
}
