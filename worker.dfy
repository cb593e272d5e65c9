/**
 * The backend worker: one polling pass over the task store, moving every
 * pending task record to `completed` (with its html and a completion time)
 * or to `failed` (with the error message).
 *
 * The key-value store is an in-memory map from key to stored value, the
 * Markdown library is the parameter `convert`, and the clock is the
 * parameter `clock`, which gives the timestamp read while processing the
 * task under a given key.
 */
module Worker {

  /** A task record as decoded from its JSON text: field name to value. */
  type Task = map<string, string>

  /** A stored value: empty (falsy, so skipped) or an encoded task record. */
  datatype Entry = Blank | Record(task: Task)

  /** The converter's outcome: the html, or the message of what it raised. */
  datatype Conversion = Converted(html: string) | Raised(message: string)

  const Pending := "pending"
  const Completed := "completed"
  const Failed := "failed"

  /** `task.get('status') == 'pending'`: a missing status is not pending. */
  predicate IsPending(task: Task)
  {
    "status" in task && task["status"] == Pending
  }

  /** A stored value the pass hands to the task processor. */
  predicate Due(e: Entry)
  {
    e.Record? && IsPending(e.task)
  }

  /**
   * The conversion step of process_task. Reading the `markdown` field of a
   * record that has none raises KeyError, whose message is the quoted
   * field name; otherwise the converter decides.
   */
  function RunConverter(task: Task, convert: string -> Conversion): (r: Conversion)
    ensures "markdown" in task ==> r == convert(task["markdown"])
    ensures "markdown" !in task ==> r == Raised("'markdown'")
  {
    if "markdown" in task then convert(task["markdown"]) else Raised("'markdown'")
  }

  /**
   * A pending record without a `markdown` field fails: its status becomes
   * `failed`, its error is the KeyError message `'markdown'`, it gains the
   * `error` field and no other, and every field but those two keeps its
   * value.
   */
  lemma MissingMarkdownFails(task: Task, k: string, convert: string -> Conversion, clock: string -> string)
    requires IsPending(task) && "markdown" !in task
    ensures var r := Step(Record(task), k, convert, clock);
      && r.Record?
      && r.task.Keys == task.Keys + {"error"}
      && r.task["status"] == Failed
      && r.task["error"] == "'markdown'"
      && forall f :: f in task && f != "status" && f != "error" ==> r.task[f] == task[f]
  {
    var outcome := RunConverter(task, convert);
    assert outcome == Raised("'markdown'");
    assert Written(outcome) == {"status", "error"};
    assert "status" in task;
  }

  /**
   * A pending record whose markdown the converter turns into html h is
   * completed: status `completed`, `html` = h, `completedAt` = the clock
   * reading for its key, and the markdown text itself is kept.
   */
  lemma ConvertedCompletes(task: Task, k: string, convert: string -> Conversion, clock: string -> string, h: string)
    requires IsPending(task) && "markdown" in task && convert(task["markdown"]) == Converted(h)
    ensures var r := Step(Record(task), k, convert, clock);
      && r.Record?
      && r.task.Keys == task.Keys + {"html", "completedAt"}
      && r.task["status"] == Completed
      && r.task["html"] == h
      && r.task["completedAt"] == clock(k)
      && r.task["markdown"] == task["markdown"]
  {
    assert Written(Converted(h)) == {"status", "html", "completedAt"};
    assert "status" in task;
  }

  /** The fields process_task writes, by outcome. */
  function Written(outcome: Conversion): set<string>
  {
    if outcome.Converted? then {"status", "html", "completedAt"} else {"status", "error"}
  }

  /**
   * The record after process_task: the same record with `status`, `html`
   * and `completedAt` set on success, or `status` and `error` set when the
   * conversion raised. Every other field keeps its value.
   */
  function Processed(task: Task, outcome: Conversion, now: string): (r: Task)
    ensures !IsPending(r)
    ensures r.Keys == task.Keys + Written(outcome)
    ensures outcome.Converted? ==> r["status"] == Completed && r["html"] == outcome.html && r["completedAt"] == now
    ensures outcome.Raised? ==> r["status"] == Failed && r["error"] == outcome.message
    ensures forall f :: f in task && f !in Written(outcome) ==> r[f] == task[f]
  {
    match outcome
    case Converted(html) => task["status" := Completed]["html" := html]["completedAt" := now]
    case Raised(message) => task["status" := Failed]["error" := message]
  }

  /**
   * What the pass leaves under key k: a pending record is processed, with
   * the timestamp read for k; an empty value or a record in any other state
   * is left as it is.
   */
  function Step(e: Entry, k: string, convert: string -> Conversion, clock: string -> string): (r: Entry)
    ensures !Due(r)
    ensures !Due(e) ==> r == e
    ensures Due(e) ==> r.Record? && r.task == Processed(e.task, RunConverter(e.task, convert), clock(k))
  {
    if Due(e) then Record(Processed(e.task, RunConverter(e.task, convert), clock(k))) else e
  }

  /** Processing a key twice is processing it once. */
  lemma StepIdempotent(e: Entry, k: string, convert: string -> Conversion, clock: string -> string)
    ensures Step(Step(e, k, convert, clock), k, convert, clock) == Step(e, k, convert, clock)
  {
  }

  /**
   * The store after one pass over the listed keys: every listed key whose
   * stored record was pending holds that record processed; every other
   * key keeps its value, and no key is added or removed.
   */
  function AfterPass(m: map<string, Entry>, keys: seq<string>,
                     convert: string -> Conversion, clock: string -> string): (r: map<string, Entry>)
    ensures r.Keys == m.Keys
    ensures forall k :: k in m && k !in keys ==> r[k] == m[k]
    ensures forall k :: k in m && k in keys ==> r[k] == Step(m[k], k, convert, clock)
  {
    map k | k in m :: if k in keys then Step(m[k], k, convert, clock) else m[k]
  }

  /** After a pass no listed key holds a pending record. */
  lemma NoPendingAfterPass(m: map<string, Entry>, keys: seq<string>,
                           convert: string -> Conversion, clock: string -> string)
    ensures var r := AfterPass(m, keys, convert, clock);
      forall k :: k in keys && k in r ==> !Due(r[k])
  {
  }

  /** A pass over every key leaves no pending record in the store. */
  lemma NoPendingAfterFullPass(m: map<string, Entry>, keys: seq<string>,
                               convert: string -> Conversion, clock: string -> string)
    requires forall k :: k in m ==> k in keys
    ensures var r := AfterPass(m, keys, convert, clock);
      forall k :: k in r ==> !Due(r[k])
  {
    NoPendingAfterPass(m, keys, convert, clock);
  }

  /** A second pass over the same keys changes nothing. */
  lemma PassIdempotent(m: map<string, Entry>, keys: seq<string>,
                       convert: string -> Conversion, clock: string -> string)
    ensures AfterPass(AfterPass(m, keys, convert, clock), keys, convert, clock) == AfterPass(m, keys, convert, clock)
  {
    var r := AfterPass(m, keys, convert, clock);
    var rr := AfterPass(r, keys, convert, clock);
    forall k | k in rr ensures rr[k] == r[k] {
      if k in keys {
        StepIdempotent(m[k], k, convert, clock);
      }
    }
    assert rr == r;
  }

  /**
   * Extending the listing by one key: the pass so far, then one step on
   * that key if it is still in the store.
   */
  lemma AfterPassStep(m: map<string, Entry>, keys: seq<string>, i: nat,
                      convert: string -> Conversion, clock: string -> string)
    requires i < |keys|
    ensures var before := AfterPass(m, keys[..i], convert, clock);
      var k := keys[i];
      AfterPass(m, keys[..i + 1], convert, clock) ==
        if k in before then before[k := Step(before[k], k, convert, clock)] else before
  {
    var before := AfterPass(m, keys[..i], convert, clock);
    var after := AfterPass(m, keys[..i + 1], convert, clock);
    var k := keys[i];
    var expected := if k in before then before[k := Step(before[k], k, convert, clock)] else before;
    assert keys[..i + 1] == keys[..i] + [k];
    forall x | x in after ensures after[x] == expected[x] {
      assert x in keys[..i + 1] <==> x in keys[..i] || x == k;
      if x == k {
        StepIdempotent(m[x], x, convert, clock);
      }
    }
    assert after == expected;
  }

  /** The key-value store the worker polls. */
  class TaskStore {
    var entries: map<string, Entry>

    constructor (initial: map<string, Entry>)
      ensures entries == initial
    {
      entries := initial;
    }

    /**
     * process_task: convert the record's markdown, update the record's
     * fields in place and write it back under the same key.
     */
    method ProcessTask(id: string, task: Task, convert: string -> Conversion, now: string)
      modifies this
      ensures entries == old(entries)[id := Record(Processed(task, RunConverter(task, convert), now))]
    {
      var data := task;
      var outcome := RunConverter(task, convert);
      match outcome {
        case Converted(html) =>
          data := data["status" := Completed];
          data := data["html" := html];
          data := data["completedAt" := now];
        case Raised(message) =>
          data := data["status" := Failed];
          data := data["error" := message];
      }
      entries := entries[id := Record(data)];
    }

    /**
     * One iteration of the polling loop: for each listed key, read its
     * value; skip it when it is gone or empty; process it when its record
     * is pending.
     */
    method PollOnce(keys: seq<string>, convert: string -> Conversion, clock: string -> string)
      modifies this
      ensures entries == AfterPass(old(entries), keys, convert, clock)
    {
      var i := 0;
      while i < |keys|
        invariant i <= |keys|
        invariant entries == AfterPass(old(entries), keys[..i], convert, clock)
      {
        AfterPassStep(old(entries), keys, i, convert, clock);
        var id := keys[i];
        if id in entries {
          var stored := entries[id];
          if stored.Record? {
            var task := stored.task;
            if IsPending(task) {
              ProcessTask(id, task, convert, clock(id));
            }
          }
        }
        i := i + 1;
      }
      assert keys[..i] == keys;
    }
  }
}
