/**
 * The offline provisioning script backend/scripts/create-admin.js: read an email and a
 * password (from the command line, else from prompts, the password through a hidden,
 * keystroke-by-keystroke prompt), refuse empty fields and duplicate emails, and insert one
 * admin with the role "editor".
 *
 * Standard input is the sequence of `data` chunks the raw-mode stream delivers; the
 * prompt's answer line, the bcrypt hasher and the clock are parameters.
 */
module CreateAdmin {
  import opened Wrappers
  import opened Text
  import opened Schema
  import opened AdminInput

  const Newline: string := "\n"
  const CarriageReturn: string := "\r"
  /** Ctrl-D */
  const EndOfTransmission: string := "\U{0004}"
  /** Ctrl-C */
  const Interrupt: string := "\U{0003}"
  /** The Backspace key in raw mode */
  const Delete: string := "\U{007F}"

  const MissingMessage := "Email and password are required."
  const DuplicateMessage := "Admin already exists with that email."

  /** Where the hidden prompt stands: still reading, answered, or aborted by Ctrl-C. */
  datatype Prompt = Reading(buffer: string) | Entered(value: string) | Interrupted

  /** A chunk that ends the hidden prompt. */
  predicate IsEnter(chunk: string) {
    chunk == Newline || chunk == CarriageReturn || chunk == EndOfTransmission
  }

  /** A chunk `onData` treats specially; any other chunk is appended as typed. */
  predicate IsControl(chunk: string) {
    IsEnter(chunk) || chunk == Interrupt || chunk == Delete
  }

  /** `data.slice(0, -1)`: the buffer without its last character; empty stays empty. */
  function DropLast(data: string): (r: string)
    ensures data == [] ==> r == []
    ensures data != [] ==> r + [data[|data| - 1]] == data
  {
    if data == [] then [] else data[..|data| - 1]
  }

  /** One `data` event, as `onData` handles it, starting from buffer `data`. */
  function OnData(data: string, chunk: string): (p: Prompt)
    ensures p.Entered? <==> IsEnter(chunk)
    ensures p.Entered? ==> p.value == Trim(data) && Trimmed(p.value) && |p.value| <= |data|
    ensures p.Interrupted? <==> chunk == Interrupt
    ensures p.Reading? && chunk == Delete ==> p.buffer == DropLast(data)
    ensures p.Reading? && chunk != Delete ==> p.buffer == data + chunk
  {
    if IsEnter(chunk) then Entered(Trim(data))
    else if chunk == Interrupt then Interrupted
    else if chunk == Delete then Reading(DropLast(data))
    else Reading(data + chunk)
  }

  /**
   * The hidden prompt as a fold over the chunks. Once answered or aborted, later chunks
   * are not seen: the listener is removed, or the process has exited.
   */
  function Feed(data: string, chunks: seq<string>): (p: Prompt)
    ensures p.Entered? ==> Trimmed(p.value)
    ensures p.Reading? ==> |p.buffer| <= |data| + Total(chunks)
    decreases |chunks|
  {
    if chunks == [] then Reading(data)
    else
      match OnData(data, chunks[0])
      case Reading(next) => Feed(next, chunks[1..])
      case Entered(v) => assert Trimmed(Trim(data)); Entered(v)
      case Interrupted => Interrupted
  }

  /** Total length of the chunks, a bound on what can pile up in the buffer. */
  function Total(chunks: seq<string>): nat {
    if chunks == [] then 0 else |chunks[0]| + Total(chunks[1..])
  }

  /** All the chunks, one after the other. */
  function Concat(chunks: seq<string>): string {
    if chunks == [] then [] else chunks[0] + Concat(chunks[1..])
  }

  /**
   * `ask(query, true)`: the `data` buffer is updated chunk by chunk until Enter or Ctrl-C.
   * When the chunks run out first the prompt is still waiting, with what was typed.
   */
  method ReadHidden(chunks: seq<string>) returns (p: Prompt)
    ensures p == Feed([], chunks)
  {
    var data: string := [];
    var i := 0;
    while i < |chunks|
      invariant 0 <= i <= |chunks|
      invariant Feed(data, chunks[i..]) == Feed([], chunks)
    {
      var chunk := chunks[i];
      assert chunks[i..][0] == chunk && chunks[i..][1..] == chunks[i + 1..];
      if chunk == Newline || chunk == CarriageReturn || chunk == EndOfTransmission {
        return Entered(Trim(data));
      } else if chunk == Interrupt {
        return Interrupted;
      } else if chunk == Delete {
        data := if |data| == 0 then data else data[..|data| - 1];
      } else {
        data := data + chunk;
      }
      i := i + 1;
    }
    assert chunks[i..] == [];
    return Reading(data);
  }

  /** An ordinary chunk is appended and reading goes on. */
  lemma FeedOrdinary(data: string, chunk: string, rest: seq<string>)
    requires !IsControl(chunk)
    ensures Feed(data, [chunk] + rest) == Feed(data + chunk, rest)
  {
    assert ([chunk] + rest)[1..] == rest;
  }

  /** Enter answers with the trimmed buffer. */
  lemma FeedEnter(data: string, enter: string, rest: seq<string>)
    requires IsEnter(enter)
    ensures Feed(data, [enter] + rest) == Entered(Trim(data))
  {
    assert ([enter] + rest)[0] == enter;
  }

  /** Ordinary keys pile up in the buffer, whatever comes after them. */
  lemma {:induction false} TypedAppends(data: string, typed: seq<string>, rest: seq<string>)
    requires forall i :: 0 <= i < |typed| ==> !IsControl(typed[i])
    ensures Feed(data, typed + rest) == Feed(data + Concat(typed), rest)
    decreases |typed|
  {
    if typed == [] {
      assert typed + rest == rest;
      assert data + Concat(typed) == data;
    } else {
      var tail := typed[1..];
      var mid := tail + rest;
      assert typed + rest == [typed[0]] + mid;
      FeedOrdinary(data, typed[0], mid);
      assert forall i :: 0 <= i < |tail| ==> tail[i] == typed[i + 1];
      TypedAppends(data + typed[0], tail, rest);
      var buffer := (data + typed[0]) + Concat(tail);
      assert buffer == data + Concat(typed) by {
        assert Concat(typed) == typed[0] + Concat(tail);
      }
      calc {
        Feed(data, typed + rest);
        Feed(data, [typed[0]] + mid);
        Feed(data + typed[0], mid);
        Feed(buffer, rest);
      }
    }
  }

  /** Typing ordinary keys and then Enter answers with the trimmed text typed. */
  lemma TypedThenEnter(data: string, typed: seq<string>, enter: string)
    requires forall c :: c in typed ==> !IsControl(c)
    requires IsEnter(enter)
    ensures Feed(data, typed + [enter]) == Entered(Trim(data + Concat(typed)))
  {
    assert forall i :: 0 <= i < |typed| ==> typed[i] in typed;
    TypedAppends(data, typed, [enter]);
    FeedEnter(data + Concat(typed), enter, []);
    assert [enter] + [] == [enter];
  }

  /** Backspace on an empty buffer leaves it empty. */
  lemma BackspaceOnEmpty(rest: seq<string>)
    ensures Feed([], [Delete] + rest) == Feed([], rest)
  {
    assert ([Delete] + rest)[1..] == rest;
  }

  /** Backspace right after a one-character key undoes it. */
  lemma TypeThenErase(data: string, key: char, rest: seq<string>)
    requires !IsControl([key])
    ensures Feed(data, [[key], Delete] + rest) == Feed(data, rest)
  {
    assert ([[key], Delete] + rest)[1..] == [Delete] + rest;
    assert ([Delete] + rest)[1..] == rest;
    assert DropLast(data + [key]) == data;
  }

  /** Ctrl-C aborts the prompt; nothing typed afterwards is read. */
  lemma InterruptAborts(data: string, rest: seq<string>)
    ensures Feed(data, [Interrupt] + rest) == Interrupted
  {
  }

  /** Keys after Enter are never read: the answer is fixed by what came before. */
  lemma {:induction false} NothingAfterEnter(data: string, before: seq<string>, enter: string, after: seq<string>)
    requires IsEnter(enter)
    ensures Feed(data, before + [enter] + after) == Feed(data, before + [enter])
    decreases |before|
  {
    if before == [] {
      assert [enter] + after == before + [enter] + after;
    } else {
      assert (before + [enter] + after)[1..] == before[1..] + [enter] + after;
      assert (before + [enter])[1..] == before[1..] + [enter];
      match OnData(data, before[0])
      case Reading(next) => NothingAfterEnter(next, before[1..], enter, after);
      case Entered(_) =>
      case Interrupted =>
    }
  }

  /**
   * `onData` compares whole chunks: a paste that arrives as one chunk of several characters
   * (a newline among them or not) is buffered as typed and does not answer the prompt.
   */
  lemma PastedNewlineIsBuffered(data: string, chunk: string, rest: seq<string>)
    requires |chunk| > 1
    ensures Feed(data, [chunk] + rest) == Feed(data + chunk, rest)
  {
    assert !IsControl(chunk) by {
      assert |Newline| == |CarriageReturn| == |EndOfTransmission| == |Interrupt| == |Delete| == 1;
    }
    FeedOrdinary(data, chunk, rest);
  }

  /** `process.argv[2]` and `process.argv[3]`; `None` when not given. */
  datatype Args = Args(email: Option<string>, password: Option<string>)

  /**
   * `(process.argv[2] || await ask('Admin email: ')).toLowerCase()`: the prompted answer is
   * trimmed, the command-line value is not.
   */
  function ProvidedEmail(args: Args, answer: string): (email: string)
    ensures forall i :: 0 <= i < |email| ==> !('A' <= email[i] <= 'Z')
    ensures Truthy(args.email) ==> email == Lower(args.email.value)
    ensures !Truthy(args.email) ==> Trimmed(email) && email == Lower(Trim(answer))
  {
    if Truthy(args.email) then Lower(args.email.value)
    else
      LowerKeepsTrimmed(Trim(answer));
      Lower(Trim(answer))
  }

  /** `process.argv[3] || await ask('Admin password: ', true)` */
  function ProvidedPassword(args: Args, chunks: seq<string>): (p: Prompt)
    ensures Truthy(args.password) ==> p == Entered(args.password.value)
    ensures !Truthy(args.password) ==> p == Feed([], chunks)
    ensures !Truthy(args.password) && p.Entered? ==> Trimmed(p.value)
  {
    if Truthy(args.password) then Entered(args.password.value) else Feed([], chunks)
  }

  /** How a run of the script ends. */
  datatype Outcome =
    | Added(admin: AdminRow)
    | MissingFields
    | AlreadyExists
    | Aborted       // Ctrl-C at the password prompt: the process exits with status 1
    | Waiting       // the password prompt is never answered
  {
    function ExitCode(): Option<int> {
      match this
      case Added(_) => Some(0)
      case MissingFields => Some(1)
      case AlreadyExists => Some(1)
      case Aborted => Some(1)
      case Waiting => None
    }
  }

  /** The result of a run: the outcome and the admins table afterwards. */
  datatype Run = Run(outcome: Outcome, admins: seq<AdminRow>, nextId: int)

  /**
   * The script from start to end against the `admins` table (`nextId` is the
   * AUTOINCREMENT counter; `now` is `datetime('now')`, the column default).
   */
  function Provision(admins: seq<AdminRow>, nextId: int, args: Args, answer: string, chunks: seq<string>,
                     hash: string -> string, now: Time): (r: Run)
    ensures r.outcome.Added? <==>
      (ProvidedEmail(args, answer) != [] && ProvidedPassword(args, chunks).Entered? &&
       ProvidedPassword(args, chunks).value != [] &&
       forall a :: a in admins ==> a.email != ProvidedEmail(args, answer))
    ensures r.outcome.Added? ==>
      r.admins == admins + [r.outcome.admin] && r.nextId == nextId + 1 &&
      r.outcome.admin == AdminRow(nextId, ProvidedEmail(args, answer),
                                  hash(ProvidedPassword(args, chunks).value), EditorRole, now)
    ensures !r.outcome.Added? ==> r.admins == admins && r.nextId == nextId
    ensures r.outcome.AlreadyExists? <==>
      (ProvidedEmail(args, answer) != [] && ProvidedPassword(args, chunks).Entered? &&
       ProvidedPassword(args, chunks).value != [] &&
       exists a :: a in admins && a.email == ProvidedEmail(args, answer))
  {
    var email := ProvidedEmail(args, answer);
    match ProvidedPassword(args, chunks)
    case Interrupted => Run(Aborted, admins, nextId)
    case Reading(_) => Run(Waiting, admins, nextId)
    case Entered(password) =>
      if email == [] || password == [] then Run(MissingFields, admins, nextId)
      else if FindAdmin(admins, email).Some? then Run(AlreadyExists, admins, nextId)
      else
        var admin := AdminRow(nextId, email, hash(password), EditorRole, now);
        Run(Added(admin), admins + [admin], nextId + 1)
  }

  /** The `UNIQUE` email constraint, and every id below the counter. */
  ghost predicate ValidAdmins(admins: seq<AdminRow>, nextId: int) {
    EmailsUnique(admins) && forall a :: a in admins ==> a.id < nextId
  }

  /** A run never breaks the table's constraints. */
  lemma ProvisionKeepsValid(admins: seq<AdminRow>, nextId: int, args: Args, answer: string,
                            chunks: seq<string>, hash: string -> string, now: Time)
    requires ValidAdmins(admins, nextId)
    ensures var r := Provision(admins, nextId, args, answer, chunks, hash, now);
      ValidAdmins(r.admins, r.nextId)
  {
    var r := Provision(admins, nextId, args, answer, chunks, hash, now);
    if r.outcome.Added? {
      var a := r.outcome.admin;
      forall i, j | 0 <= i < j < |r.admins|
        ensures r.admins[i].email != r.admins[j].email
      {
        if j == |admins| {
          assert r.admins[i] in admins;
        } else {
          assert r.admins[i] == admins[i] && r.admins[j] == admins[j];
        }
      }
    }
  }

  /** A value on the command line wins: the prompt's answer is never consulted. */
  lemma ArgsTakePrecedence(admins: seq<AdminRow>, nextId: int, args: Args, answer1: string, answer2: string,
                           chunks1: seq<string>, chunks2: seq<string>, hash: string -> string, now: Time)
    requires Truthy(args.email) && Truthy(args.password)
    ensures Provision(admins, nextId, args, answer1, chunks1, hash, now) ==
            Provision(admins, nextId, args, answer2, chunks2, hash, now)
  {
  }

  /** The admins table the script writes to. */
  class AdminTable {
    var rows: seq<AdminRow>
    var nextId: int

    ghost predicate Valid()
      reads this
    {
      ValidAdmins(rows, nextId)
    }

    constructor ()
      ensures Valid() && rows == [] && nextId == 1
    {
      rows := [];
      nextId := 1;
    }

    /** One run of the script: read the inputs, check them, insert at most one admin. */
    method RunScript(args: Args, answer: string, chunks: seq<string>, hash: string -> string, now: Time)
      returns (outcome: Outcome)
      requires Valid()
      modifies this
      ensures Valid()
      ensures Run(outcome, rows, nextId) ==
              Provision(old(rows), old(nextId), args, answer, chunks, hash, now)
    {
      ProvisionKeepsValid(rows, nextId, args, answer, chunks, hash, now);
      var email := ProvidedEmail(args, answer);
      var password: string;
      if Truthy(args.password) {
        password := args.password.value;
      } else {
        var prompt := ReadHidden(chunks);
        if prompt.Interrupted? {
          return Aborted;
        } else if prompt.Reading? {
          return Waiting;
        }
        password := prompt.value;
      }
      if email == [] || password == [] {
        return MissingFields;
      }
      var existing := FindAdmin(rows, email);
      if existing.Some? {
        return AlreadyExists;
      }
      var admin := AdminRow(nextId, email, hash(password), EditorRole, now);
      rows := rows + [admin];
      nextId := nextId + 1;
      outcome := Added(admin);
    }
  }
}
