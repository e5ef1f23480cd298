# A verified model of four small C++ components

This project models four small pieces of a C++ example repository in Dafny and proves properties of each.

- **`threadpool.h`, module `Threading` (`threadpool.dfy`).**
  - A `SingleThreadUnit` owns a FIFO queue of tasks, a `stop` flag and one consumer thread.
  - A `ThreadPool` owns `size` such units and spreads posted tasks over them round-robin through the cursor `current_round_`.
  - The threads, mutexes and condition variables are taken away. A turn of a unit's consumer loop becomes an explicit call, `RunOnce`.
  - Each unit keeps a log, `ran`, of the tasks its consumer has run.
  - Two layers state the same behaviour.
    - The value layer is `UnitState` with the pure steps `Accept`, `ConsumeStep`, `StopUnit`, `RunPending` and the trace function `Run`.
    - The classes `SingleThreadUnit` and `ThreadPool` update their fields in place. Each method's `ensures` ties the new state to a value-layer step.
- **`fake_tcp.hpp`, module `FakeSocket` (`fake_tcp.dfy`).**
  - `FakeTcp` hands out a fixed message in chunks of random length.
  - `FakeTcp.Read` copies the next chunk into the caller's array.
  - The read position `index_` is an `unsigned int`. Storing -1 in it leaves the value `END` = 0xFFFF_FFFF, which marks the end of the message.
  - The draw `std::rand()` becomes a parameter `r` of `Read`.
  - `ReadStep`, `IndexAfter` and `Received` describe one read and a sequence of reads.
- **`constexpr.hpp`, module `ErrorCodes` (`error_code.dfy`).**
  - `Getcode` packs the department into bits 24-31, the module into bits 16-23 and the code into bits 0-15.
  - The C++ `int` is modelled by its 32-bit pattern, `bv32`.
  - `Fun` is `fun()`.
- **`struct_as_map_key.cpp`, module `MapKeys` (`map_key.dfy`).**
  - A `_key` is an `int` and a `std::string`.
  - `Cmp` is the comparator `cmp::operator()` that the map is built with. It is active because `METHOD_FUNCTION_OBJECT` is defined.
  - `KeyLess` is the inactive `_key::operator<`.
  - `StringLess` is `std::string`'s lexicographic `<` on characters.
  - `LexLess` is the first-field-then-second order that the comment above the operator describes.

The pure functions `Getcode`, `StringLess`, `Cmp`, `KeyLess`, `LexLess`, `Accept`, `ConsumeStep`, `StopUnit`, `RunPending`, `Run`, `AcceptedIn`, `Remaining`, `Chunk`, `Received`, `PostAsWritten`, `CursorAsWritten`, `SlotAsWritten`, `Served`, `Fresh`, `Apply` and `Admitted` carry no contract of their own. The lemmas and methods listed below state what they mean.

Four facts about the code shape the model.

- `threadpool.h` contains no code that moves tasks between workers. `ExpandPool` is declared at line 149 and never defined.
- The pool constructor accepts a size of 0. The first post to such a pool then indexes `workers_[0]`.
- `current_round_` reaches `size` (see Findings).
- The returned id is that of the worker the cursor points at after the wrap test. That is the worker that just received the task, except on the wrapping call, which returns worker 0's id.

## Model

| member | source | states |
|---|---|---|
| `Threading.ConsumerWaitsAndExits` | threadpool.h:66-71 | The consumer blocks exactly when `stop` is clear and the queue is empty. It returns exactly when `stop` is set and the queue is empty. Otherwise it runs the head of the queue. |
| `Threading.RunPendingRunsAll` | threadpool.h:60-75 | Running the consumer until it stops runs every queued task in queue order and empties the queue. It then blocks if `stop` is clear and returns if `stop` is set. |
| `Threading.ShutdownRunsEverything` | threadpool.h:106-114 | After `stop` is set, the consumer runs every task that was queued before it returns. |
| `Threading.ApplyConserves` | threadpool.h:60-114 | No single enqueue, consumer turn or shutdown loses, duplicates or reorders a task. The run log followed by the queue grows by exactly the task that the step admitted. |
| `Threading.Conservation` | threadpool.h:53-114 | For every sequence of operations, the run log followed by the queue equals the tasks there at the start followed by the accepted tasks, in acceptance order. |
| `Threading.RunsInOrder` | threadpool.h:70-99 | Starting from a fresh unit, the tasks that have run are a prefix of the accepted tasks: FIFO order. |
| `Threading.StopIsSticky` | threadpool.h:96-110 | Once `stop` is set, it stays set under every sequence of operations, and no task is accepted any more. |
| `Threading.SingleThreadUnit.constructor` | threadpool.h:53-59 | A new unit has an empty queue, `stop` clear and nothing run. |
| `Threading.SingleThreadUnit.Enqueue` | threadpool.h:92-100 | If `stop` is clear, it appends exactly the one task at the tail. If `stop` is set, it is rejected (the `runtime_error`) and the queue is unchanged. |
| `Threading.SingleThreadUnit.RunOnce` | threadpool.h:62-74 | One consumer turn: it pops the head and runs it, reports blocking, or reports thread exit, as `ConsumeStep` says. |
| `Threading.SingleThreadUnit.RunUntilIdle` | threadpool.h:60-75 | The consumer loop until it blocks or returns. Every queued task has run in order, the queue is empty, and the result is `Exited` exactly when `stop` is set. |
| `Threading.SingleThreadUnit.Destroy` | threadpool.h:106-114 | The destructor sets `stop`, and the thread then runs all remaining tasks in order before it returns. |
| `Threading.NextTarget` | threadpool.h:139-143 | With the wrap test before the index, the worker served is always inside the pool. |
| `Threading.CursorAfter` | threadpool.h:144-152 | The corrected cursor never exceeds the number of workers. |
| `Threading.CursorAfterValue` | threadpool.h:140-144 | After `n > 0` posts, the corrected cursor is `(n - 1) % size + 1`. |
| `Threading.RoundRobin` | threadpool.h:137-147 | The `n`-th post, counting from 0, goes to worker `n % size`. |
| `Threading.ServedInRound` | threadpool.h:137-147 | After `k` full rounds and `j` further posts, worker `i` has received `k` tasks, plus one if `i < j`. |
| `Threading.Fairness` | threadpool.h:137-147 | `k * size` posts give every worker exactly `k` tasks. |
| `Threading.ThreadPool.constructor` | threadpool.h:120-127 | The pool has exactly `size` fresh workers with empty queues, worker `i` has id `i`, and the cursor is 0. |
| `Threading.ThreadPool.PostTaskRoundRobin` | threadpool.h:137-147 | The corrected post: the task goes to the tail of worker `posted % size`, whose id is returned. No other queue changes. |
| `Threading.ThreadPool.Destroy` | threadpool.h:128-134 | Every worker ends up stopped with an empty queue, having run all of its remaining tasks in order. |
| `Threading.CursorAsWrittenInRange` | threadpool.h:140-152 | As written, the cursor stays in `0..size`, and it is at least 1 after the first post. |
| `Threading.CursorAsWrittenCounts` | threadpool.h:139-144 | As written, the cursor equals the number of posts for the first `size` posts. |
| `Threading.OverrunAsWritten` | threadpool.h:139-141 | As written, post `size + 1` indexes `workers_[size]`, one past the end. On an empty pool the first post does the same. |
| `Threading.CursorsAgree` | threadpool.h:139-144 | The as-written cursor takes the same values as the corrected one after every number of posts. |
| `Threading.ScheduleAsWritten` | threadpool.h:137-147 | As written, post `n` indexes `workers_[n % size]`, except that every post with `n > 0` and `n % size == 0` indexes `workers_[size]`, one past the end. So one post in every `size` overruns. |
| `Threading.IdAsWritten` | threadpool.h:139-146 | The returned id is that of the worker just indexed, except on the wrapping post, which returns worker 0's id. |
| `Threading.StarvesFirstWorker` | threadpool.h:139-144 | As written, after the first post worker 0 is never indexed again. |
| `Threading.ThreeWorkersAsWritten` | threadpool.h:137-147 | With three workers, the first five posts index 0, 1, 2, 3 and 1. |
| `Threading.ThreeWorkersCorrected` | threadpool.h:137-147 | With three workers, the corrected first five posts serve 0, 1, 2, 0 and 1. |
| `FakeSocket.Want` | fake_tcp.hpp:24 | The amount a read asks for, `rand() % bufferSize`, is below the buffer size. |
| `FakeSocket.ReadStep` | fake_tcp.hpp:19-40 | At `END` a read returns -1 and stays at `END`. Otherwise it returns the requested amount clipped to what is left, advances by exactly that, and moves to `END` exactly when it reaches the end of the message. |
| `FakeSocket.IndexAfter` | fake_tcp.hpp:35-37 | After any sequence of reads, the position is inside the message, at its end, or `END`. |
| `FakeSocket.ChunkThenRemaining` | fake_tcp.hpp:30-37 | One read splits what remained into the chunk it copies and what remains after it. |
| `FakeSocket.ReadOneMore` | fake_tcp.hpp:19-40 | One more read extends the received text by exactly that read's chunk. |
| `FakeSocket.ReceivedThenRemaining` | fake_tcp.hpp:19-40 | For any sequence of reads, the received chunks followed by what remains is what remained at the start. |
| `FakeSocket.Reassembly` | fake_tcp.hpp:19-40 | Once the reads reach `END`, the concatenated chunks are exactly the message. |
| `FakeSocket.ReceivedIsPrefix` | fake_tcp.hpp:30-33 | The concatenated chunks are always a prefix of the message. |
| `FakeSocket.EndIsFinal` | fake_tcp.hpp:21-22 | Once at `END`, every later read returns -1, copies nothing and stays at `END`. |
| `FakeSocket.ReadFitsBuffer` | fake_tcp.hpp:24-28 | A read that is not at `END` returns at least 0 and less than the buffer size. |
| `FakeSocket.EmptyMessage` | fake_tcp.hpp:12-40 | An empty message gives one read of 0 characters, then -1. |
| `FakeSocket.FakeTcp.constructor` | fake_tcp.hpp:12-17 | A new reader holds the message at position 0. |
| `FakeSocket.FakeTcp.Read` | fake_tcp.hpp:19-40 | At `END`, `Read` returns -1 and stays at `END`, whatever the buffer size. Otherwise it returns and moves as `ReadStep` says, and returns less than `bufferSize`. It writes `buff[0..n)` with the next `n` characters of the message and leaves the rest of `buff` untouched. At `END` it writes nothing. |
| `FakeSocket.TestFakeTcp` | fake_tcp.hpp:54-69 | The last buffer cell is never written and stays 0. What has been read is always a prefix of the message. Once -1 is seen, what has been read is the whole message. |
| `ErrorCodes.Fun` | constexpr.hpp:11-18 | `fun()` is 0x0115_0065. |
| `ErrorCodes.GetcodeFields` | constexpr.hpp:1-6 | For every code, bits 24-31 hold the department (1), bits 16-23 hold the module (21), and bits 0-15 hold the code's low 16 bits. |
| `ErrorCodes.GetcodeValue` | constexpr.hpp:4-7 | As a number, the packed word of a code below 2^16 is 0x0115_0000 plus the code. |
| `ErrorCodes.GetcodeIdempotent` | constexpr.hpp:6 | Packing a packed code changes nothing. |
| `ErrorCodes.GetcodeKeepsLowBits` | constexpr.hpp:6 | Equal packed words come from codes with equal low 16 bits. |
| `ErrorCodes.GetcodeDropsHighBits` | constexpr.hpp:6 | Codes with equal low 16 bits collide. |
| `ErrorCodes.GetcodeInjective` | constexpr.hpp:6 | Codes in `0..65535` are packed without loss. |
| `ErrorCodes.DefinedCodes` | constexpr.hpp:11-12 | The two defined errors pack to different words. A code 2^16 above `ErroNetWork` packs to the same word as `ErroNetWork`. |
| `MapKeys.CmpIrreflexive` | struct_as_map_key.cpp:48-52 | No key precedes itself under `cmp`. |
| `MapKeys.CmpFirstDecides` | struct_as_map_key.cpp:48-49 | A smaller first field makes `cmp` true, whatever the second fields are. |
| `MapKeys.CmpSecondOverrides` | struct_as_map_key.cpp:50-51 | A smaller second field makes `cmp` true, even against a larger first field. |
| `MapKeys.CmpEqualFirst` | struct_as_map_key.cpp:48-52 | For equal first fields, `cmp` is exactly string `<` on the second fields. |
| `MapKeys.CmpIsNotLexicographic` | struct_as_map_key.cpp:26-52 | `cmp((2,"a"),(1,"b"))` holds, although the first-then-second order puts `(1,"b")` first. |
| `MapKeys.CmpNotAsymmetric` | struct_as_map_key.cpp:48-52 | `cmp((2,"a"),(1,"b"))` and `cmp((1,"b"),(2,"a"))` both hold. |
| `MapKeys.CmpIsNotStrictWeakOrder` | struct_as_map_key.cpp:27 | `cmp` is not the strict weak ordering that a `std::map` comparator must be. |
| `MapKeys.KeyLessIsCmp` | struct_as_map_key.cpp:28-38 | The inactive `_key::operator<` and `cmp` agree on every pair of keys. |
| `MapKeys.LexLessIsStrictWeakOrder` | struct_as_map_key.cpp:26-27 | The first-then-second order is a strict weak ordering and orders every two distinct keys. |

## Left out

- Real threads, `std::mutex`, `condition_variable` wait and notify, and `join`. The consumer thread's turns are explicit calls, and `join` becomes running the consumer until it returns. Interleavings of the consumer with producers are not modelled.
- `std::future`, `std::packaged_task` and `std::bind` in `enqueue`. This is library machinery, so a task is an opaque `TaskId` and running it appends it to `ran`.
- `GetTaskSize`, because it reads the queue without the lock. That is a data race, not sequential behaviour.
- `Task::ownner_`, because nothing uses it.
- `ExpandPool`, because it is declared and never defined.
- Rebalancing, because no code implements it.
- The thread id, which is a worker index. The thread sets `tid_` itself at start-up; here the unit's constructor receives `tid` as a parameter.
- Threading.ThreadPool.PostTaskRoundRobin: models the corrected post, not the code as written, and requires a non-empty pool. The code as written indexes out of bounds; `PostAsWritten` models it (see Findings).
- `srand(std::time(NULL))` and `std::rand()`. The draw is the parameter `r` of `Read`, and any natural number is allowed.
- FakeSocket.TestFakeTcp: reads only while draws `rs` remain, instead of looping until -1 without a bound. With unlucky draws, the reads can return 0 characters forever, so the loop is not proved to terminate.
- `std::cout` output in `TestFakeTcp`, `circle_ref.cpp` and `main`.
- FakeSocket.FakeTcp.Read: requires a positive buffer size unless the reader is at `END`. At `END` the source returns -1 before it divides. Anywhere else, a buffer size of 0 makes `rand() % bufferSize` divide by zero, which is undefined behaviour and is not modelled.
- FakeSocket.FakeTcp.constructor: requires a message of at most `INT_MAX` characters. `Read` computes the number of characters left as an `int`, and a longer message would overflow it.
- `main` of `struct_as_map_key.cpp`: the `std::map` internals, `getchar`, and the dereference of `end()`.
- `circle_ref.cpp`: it is about `shared_ptr`/`weak_ptr` lifetimes, which are library semantics.
- `extern "C"` linkage and the macros, beyond their numeric values.
- `_key::first` is modelled as an unbounded integer. Comparison with `<` does not depend on its width.
- `std::string` compares its bytes as `unsigned char`. The model's `char` is a Unicode scalar value, and `StringLess` compares code points. The two orders agree on characters up to 0xFF.
- ErrorCodes.GetcodeValue: gives the numeric value only for codes below 2^16. For other codes, `GetcodeFields` states the bit fields.

## Findings

| source | as written | input that shows it | evidently intended | confidence | as-written member | corrected member |
|---|---|---|---|---|---|---|
| threadpool.h:139-141 | `workers_[current_round_]` is indexed before the test that wraps `current_round_` back to 0 | On a pool of 3 workers, the 4th post indexes `workers_[3]`, and so does every 3rd post after it. On a pool of 0 workers, the first post indexes `workers_[0]`. After the first post, worker 0 never receives a task. | Wrap the cursor before indexing, so that post `n` goes to worker `n % size` and every worker gets its share | not executed | `Threading.ScheduleAsWritten` | `Threading.Fairness` |
| struct_as_map_key.cpp:48-52 | The second fields are compared even when the first fields differ | `(2,"a")` and `(1,"b")` each precede the other, which breaks the strict weak ordering that `std::map` requires | Compare the second fields only when the first fields are equal | not executed | `MapKeys.CmpNotAsymmetric` | `MapKeys.LexLessIsStrictWeakOrder` |
