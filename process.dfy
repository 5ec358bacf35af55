/**
 * The process table (kernel/src/sys/process.c): 128 slots, each NULL or a
 * process, and the loader that fills one.
 *
 * The file system, the heap and paging are not called: what open_fs,
 * read_fs, kmalloc, kmalloc_aligned and process_map_memory return are
 * parameters, gathered in a LoadEnv.  task_new is the Task module's, so a
 * load appends to the task list as the kernel's does.
 */
module Process {
  import opened Kernel
  import Task

  const KERNEL_MAX_PROCESSES: nat := 128

  /** process_t; `task` is the pointer value stored, whatever it points to. */
  class Process {
    var id: u32
    var task: u32
    var data: u32
    var stack: u32
    var size: u32

    /** kmalloc'ed and zeroed by process_init. */
    constructor ()
      ensures id == 0 && task == 0 && data == 0 && stack == 0 && size == 0
    {
      id, task, data, stack, size := 0, 0, 0, 0, 0;
    }
  }

  /**
   * What the calls a load makes return: whether kmalloc found room for the
   * process, the size of the file open_fs found (None for NULL), the
   * buffer kmalloc_aligned returned for the data and for the stack (0 for
   * NULL), read_fs's result, what task_new needs, and process_map_memory's
   * status.
   */
  datatype LoadEnv = LoadEnv(processMemory: bool, fileSize: Option<u32>, dataPtr: u32, readResult: u32,
                             stackPtr: u32, taskMemory: bool, taskDirectory: u32, userDataSelector: u32,
                             mapResult: u32)

  /**
   * process_load_binary: EIO when the file cannot be opened, ENOMEM when
   * no buffer is returned, read_fs's result when it is not EOK, and
   * otherwise EOK with the buffer and the file size stored in the process.
   */
  method LoadBinary(process: Process, fileSize: Option<u32>, dataPtr: u32, readResult: u32) returns (res: u32)
    modifies process
    ensures res == (if fileSize.None? then EIO else if dataPtr == 0 then ENOMEM else readResult)
    ensures res == EOK ==> process.data == dataPtr && process.size == fileSize.value
    ensures res != EOK ==> process.data == old(process.data) && process.size == old(process.size)
    ensures process.id == old(process.id) && process.task == old(process.task) && process.stack == old(process.stack)
  {
    if fileSize.None? {
      return EIO;
    }
    if dataPtr == 0 {
      return ENOMEM;
    }
    res := readResult;
    if res != EOK {
      return;
    }
    process.data := dataPtr;
    process.size := fileSize.value;
  }

  /**
   * The first steps of process_load_for_slot: kmalloc the process (ENOMEM
   * when there is no room), process_load_binary, then kmalloc_aligned the
   * stack (-ENOMEM for NULL).  The process gets its id, data, size and
   * stack.
   */
  method NewProcess(slot: u32, env: LoadEnv) returns (res: u32, p: Process?)
    ensures res == EOK <==> ProcessReady(env)
    ensures res != EOK ==> res == LoadStatus(false, env) && p == null
    ensures res == EOK ==>
              p != null && fresh(p) && p.id == slot && p.task == 0 && p.data == env.dataPtr
              && p.size == env.fileSize.value && p.stack == env.stackPtr
  {
    if !env.processMemory {
      return ENOMEM, null;
    }
    p := new Process();
    res := LoadBinary(p, env.fileSize, env.dataPtr, env.readResult);
    if res != EOK {
      return res, null;
    }
    if env.stackPtr == 0 {
      return Negate(ENOMEM), null;
    }
    p.stack := env.stackPtr;
    p.id := slot;
  }

  /** The first free slot of `slots`, or -1. */
  function FirstFree(slots: seq<Process?>): (r: int)
    ensures -1 <= r < |slots|
    ensures r == -1 <==> forall j :: 0 <= j < |slots| ==> slots[j] != null
    ensures r >= 0 ==> slots[r] == null && forall j :: 0 <= j < r ==> slots[j] != null
  {
    if |slots| == 0 then -1
    else if slots[0] == null then 0
    else
      var r := FirstFree(slots[1..]);
      assert forall j :: 1 <= j < |slots| ==> slots[j] == slots[1..][j - 1];
      if r == -1 then -1 else r + 1
  }

  /** The global `processes` array. */
  class ProcessTable {
    const processes: array<Process?>

    /** 128 slots, and a process in slot `i` has id `i`. */
    ghost predicate Valid()
      reads this, processes, processes[..]
    {
      processes.Length == KERNEL_MAX_PROCESSES
      && forall i :: 0 <= i < processes.Length && processes[i] != null ==> processes[i].id as int == i
    }

    /** The static array starts out all NULL. */
    constructor ()
      ensures Valid() && forall i :: 0 <= i < KERNEL_MAX_PROCESSES ==> processes[i] == null
    {
      processes := new Process?[KERNEL_MAX_PROCESSES](_ => null);
    }

    /** process_get: the slot's contents; an index of 128 or more panics. */
    function Get(index: u32): (r: Outcome<Process?>)
      requires processes.Length == KERNEL_MAX_PROCESSES
      reads this, processes
      ensures r == Halt <==> index as int >= KERNEL_MAX_PROCESSES
      ensures r.Done? ==> r.value == processes[index]
    {
      if index as int >= KERNEL_MAX_PROCESSES then Halt else Done(processes[index])
    }

    /** process_get_free_slot: the smallest index holding NULL, or -1 when all are taken. */
    method GetFreeSlot() returns (r: int)
      requires Valid()
      ensures r == FirstFree(processes[..])
      ensures r >= 0 ==> r < KERNEL_MAX_PROCESSES && processes[r] == null
                         && forall j :: 0 <= j < r ==> processes[j] != null
      ensures r == -1 <==> forall j :: 0 <= j < KERNEL_MAX_PROCESSES ==> processes[j] != null
    {
      var i := 0;
      while i < KERNEL_MAX_PROCESSES
        invariant 0 <= i <= KERNEL_MAX_PROCESSES
        invariant forall j :: 0 <= j < i ==> processes[j] != null
      {
        if processes[i] == null {
          FirstFreeIs(processes[..], i);
          return i;
        }
        i := i + 1;
      }
      FirstFreeIs(processes[..], -1);
      return -1;
    }

    /**
     * process_load_for_slot.  An index of 128 or more halts in
     * process_get, an occupied slot is EINVARG, and a free one is loaded
     * by LoadIntoFree.
     */
    method LoadForSlot(s: Task.Scheduler, slot: u32, env: LoadEnv) returns (res: Outcome<u32>, process: Process?, ghost t: Task.Task?)
      requires Valid() && s.Linked()
      modifies processes, s, s.tail
      ensures Valid() && s.Linked() && s.current == old(s.current)
      ensures var created := slot as int < KERNEL_MAX_PROCESSES && old(processes[slot]) == null && CreatesTask(env);
              (created ==> t != null && fresh(t) && s.order == old(s.order) + [t] && s.tail == t
                           && s.head == (if old(s.head) == null then t else old(s.head))
                           && t.pageDirectory == env.taskDirectory
                           && t.registers == Task.InitialRegisters(env.userDataSelector))
              && (!created ==> s.order == old(s.order) && s.head == old(s.head) && s.tail == old(s.tail))
      ensures res == Halt <==> slot as int >= KERNEL_MAX_PROCESSES
      ensures res.Done? ==> res.value == LoadStatus(old(processes[slot]) != null, env)
      ensures res.Done? && res.value == EOK ==>
                process != null && fresh(process) && processes[slot] == process && process.id == slot
                && process.task == ENOMEM && process.data == env.dataPtr && process.size == env.fileSize.value
                && process.stack == env.stackPtr
                && forall j :: 0 <= j < KERNEL_MAX_PROCESSES && j != slot as int ==> processes[j] == old(processes[j])
      ensures !(res.Done? && res.value == EOK) ==> process == null && processes[..] == old(processes[..])
    {
      var current := Get(slot);
      if current == Halt {
        return Halt, null, null;
      }
      if current.value != null {
        return Done(EINVARG), null, null;
      }
      var status;
      status, process, t := LoadIntoFree(s, slot, env);
      res := Done(status);
    }

    /**
     * The rest of process_load_for_slot, for a free slot.  A failed
     * allocation is ENOMEM; a failed load the loader's status; a missing
     * stack -ENOMEM.  task_new's status is then stored as the task
     * pointer, so a task created (status EOK) reads as NULL and gives
     * ENOMEM, while a failed task_new (status ENOMEM) reads as a task and
     * the load goes on to process_map_memory.  Only when that returns EOK
     * is the process stored in the slot and handed back.
     */
    method LoadIntoFree(s: Task.Scheduler, slot: u32, env: LoadEnv) returns (res: u32, process: Process?, ghost t: Task.Task?)
      requires Valid() && s.Linked()
      requires slot as int < KERNEL_MAX_PROCESSES && processes[slot] == null
      modifies processes, s, s.tail
      ensures Valid() && s.Linked() && s.current == old(s.current)
      ensures CreatesTask(env) ==>
                t != null && fresh(t) && s.order == old(s.order) + [t] && s.tail == t
                && s.head == (if old(s.head) == null then t else old(s.head))
                && t.pageDirectory == env.taskDirectory
                && t.registers == Task.InitialRegisters(env.userDataSelector)
      ensures !CreatesTask(env) ==> s.order == old(s.order) && s.head == old(s.head) && s.tail == old(s.tail)
      ensures res == LoadStatus(false, env)
      ensures res == EOK ==>
                process != null && fresh(process) && processes[slot] == process && process.id == slot
                && process.task == ENOMEM && process.data == env.dataPtr && process.size == env.fileSize.value
                && process.stack == env.stackPtr
                && forall j :: 0 <= j < KERNEL_MAX_PROCESSES && j != slot as int ==> processes[j] == old(processes[j])
      ensures res != EOK ==> process == null && processes[..] == old(processes[..])
    {
      process, t := null, null;
      var p;
      res, p := NewProcess(slot, env);
      if res != EOK {
        return res, null, null;
      }
      var taskStatus: u32;
      taskStatus, t := s.TaskNew(env.taskMemory, env.taskDirectory, env.userDataSelector);
      if taskStatus == 0 {
        return ENOMEM, null, t;
      }
      p.task := taskStatus;
      if env.mapResult != EOK {
        return env.mapResult, null, t;
      }
      processes[slot] := p;
      return EOK, p, t;
    }

    /**
     * process_load: ENOMEM when every slot is taken, otherwise
     * process_load_for_slot on the first free slot.
     */
    method Load(s: Task.Scheduler, env: LoadEnv) returns (res: u32, process: Process?, ghost t: Task.Task?)
      requires Valid() && s.Linked()
      modifies processes, s, s.tail
      ensures Valid() && s.Linked() && s.current == old(s.current)
      ensures var slot := FirstFree(old(processes[..]));
              (slot == -1 ==> res == ENOMEM)
              && (slot >= 0 ==> res == LoadStatus(false, env))
              && (res == EOK ==>
                    slot >= 0 && process != null && fresh(process) && processes[slot] == process
                    && process.id as int == slot && process.task == ENOMEM && process.data == env.dataPtr
                    && process.size == env.fileSize.value && process.stack == env.stackPtr
                    && forall j :: 0 <= j < KERNEL_MAX_PROCESSES && j != slot ==> processes[j] == old(processes[j]))
              && (res != EOK ==> process == null && processes[..] == old(processes[..]))
      ensures var created := FirstFree(old(processes[..])) >= 0 && CreatesTask(env);
              (created ==> t != null && fresh(t) && s.order == old(s.order) + [t] && s.tail == t
                           && s.head == (if old(s.head) == null then t else old(s.head))
                           && t.pageDirectory == env.taskDirectory
                           && t.registers == Task.InitialRegisters(env.userDataSelector))
              && (!created ==> s.order == old(s.order) && s.head == old(s.head) && s.tail == old(s.tail))
    {
      var slot := GetFreeSlot();
      if slot < 0 {
        return ENOMEM, null, null;
      }
      var r;
      r, process, t := LoadForSlot(s, slot as u32, env);
      res := r.value;
    }
  }

  /** FirstFree finds the slot the loop stops at. */
  lemma FirstFreeIs(slots: seq<Process?>, i: int)
    requires -1 <= i < |slots|
    requires i == -1 ==> forall j :: 0 <= j < |slots| ==> slots[j] != null
    requires i >= 0 ==> slots[i] == null && forall j :: 0 <= j < i ==> slots[j] != null
    ensures FirstFree(slots) == i
  { }

  /**
   * Does process_load_for_slot reach task_new with the allocation and
   * page_directory_create both succeeding, so that a task is appended to
   * the list?  (The load then fails with ENOMEM.)
   */
  predicate CreatesTask(env: LoadEnv) {
    ProcessReady(env) && env.taskMemory && env.taskDirectory != 0
  }

  /**
   * Do the process allocation, the file, its buffer, read_fs and the
   * stack all succeed, so that process_load_for_slot reaches task_new?
   */
  predicate ProcessReady(env: LoadEnv) {
    env.processMemory && env.fileSize.Some? && env.dataPtr != 0 && env.readResult == EOK && env.stackPtr != 0
  }

  /**
   * The status process_load_for_slot returns for a slot below 128: which
   * step stopped it, and EOK only when task_new failed and mapping succeeded.
   */
  function LoadStatus(occupied: bool, env: LoadEnv): u32 {
    if occupied then EINVARG
    else if !env.processMemory then ENOMEM
    else if env.fileSize.None? then EIO
    else if env.dataPtr == 0 then ENOMEM
    else if env.readResult != EOK then env.readResult
    else if env.stackPtr == 0 then Negate(ENOMEM)
    else if env.taskMemory && env.taskDirectory != 0 then ENOMEM
    else env.mapResult
  }

  /**
   * A process is stored only when its task could not be created: a load
   * that creates its task always fails with ENOMEM, and a success needs
   * the file, both buffers and a read_fs result of EOK.
   */
  lemma LoadSucceedsOnlyWithoutTask(env: LoadEnv)
    ensures LoadStatus(false, env) == EOK ==>
              !(env.taskMemory && env.taskDirectory != 0)
              && env.processMemory && env.fileSize.Some? && env.dataPtr != 0 && env.readResult == EOK
              && env.stackPtr != 0 && env.mapResult == EOK
    ensures CreatesTask(env) ==> LoadStatus(false, env) == ENOMEM
    ensures LoadStatus(true, env) == EINVARG
  { }
}
