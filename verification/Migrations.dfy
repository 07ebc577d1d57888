/**
Database migrations: discovering them by name, and applying those that are still missing.
*/
module Migrations {
  import opened Wrappers

  // ----- Names ----------------------------------------------------------------------------------

  const PREFIX := "migration_"

  /** The decimal digits and their values; those of ASCII are among them, but there are others. */
  type Digits = map<char, nat>

  /** `int` of a string of decimal digits. */
  function ToNumber(digits: Digits, text: string): nat
    requires forall c <- text :: c in digits
  {
    if text == "" then 0
    else
      var n := |text| - 1;
      assert text[n] in digits;
      10 * ToNumber(digits, text[..n]) + digits[text[n]]
  }

  datatype NameError = WrongPrefix | NotANumber | Duplicate | Gap

  /** The number in a module name, or what is wrong with the name. */
  function Number(digits: Digits, name: string): Result<nat, NameError> {
    if !(PREFIX <= name) then Err(WrongPrefix)
    else
      var suffix := name[|PREFIX|..];
      if suffix == "" || exists c <- suffix :: c !in digits then Err(NotANumber)
      else Ok(ToNumber(digits, suffix))
  }

  function Power(n: nat): (p: nat)
    ensures p > 0
  {
    if n == 0 then 1 else 10 * Power(n - 1)
  }

  /** A digit counts ten times as much as it would one place further right. */
  lemma {:induction false} DigitsByPlace(digits: Digits, text: string)
    requires text != "" && forall c <- text :: c in digits
    ensures text[0] in digits && forall c <- text[1..] :: c in digits
    ensures ToNumber(digits, text) == digits[text[0]] * Power(|text| - 1) + ToNumber(digits, text[1..])
    decreases |text|
  {
    var n := |text| - 1;
    if n > 0 {
      DigitsByPlace(digits, text[..n]);
      var rest := text[1..];
      assert text[..n][1..] == rest[..n - 1] && rest[n - 1] == text[n];
      assert ToNumber(digits, rest) == 10 * ToNumber(digits, rest[..n - 1]) + digits[text[n]];
      TimesTen(digits[text[0]], Power(n - 1));
    } else {
      assert text[..0] == "" && text[1..] == "";
    }
  }

  lemma TimesTen(digit: nat, power: nat)
    ensures 10 * (digit * power) == digit * (10 * power)
  {
  }

  /** The usual way to write a number. */
  function Decimal(n: nat): string {
    (if n < 10 then "" else Decimal(n / 10)) + [Digit(n % 10)]
  }

  function Digit(k: nat): char
    requires k < 10
  {
    "0123456789"[k]
  }

  ghost predicate AsciiDigits(digits: Digits) {
    forall k | 0 <= k < 10 :: Digit(k) in digits && digits[Digit(k)] == k
  }

  /** What a number is written as is read as that number. */
  lemma {:induction false} DecimalIsRead(digits: Digits, n: nat)
    requires AsciiDigits(digits)
    ensures forall c <- Decimal(n) :: c in digits
    ensures ToNumber(digits, Decimal(n)) == n
  {
    var last := n % 10;
    assert Digit(last) in digits && digits[Digit(last)] == last;
    if n < 10 {
      AppendDigit(digits, "", Digit(last));
      assert "" + [Digit(last)] == Decimal(n);
    } else {
      DecimalIsRead(digits, n / 10);
      AppendDigit(digits, Decimal(n / 10), Digit(last));
    }
  }

  lemma AppendDigit(digits: Digits, text: string, c: char)
    requires c in digits && forall d <- text :: d in digits
    ensures forall d <- text + [c] :: d in digits
    ensures ToNumber(digits, text + [c]) == 10 * ToNumber(digits, text) + digits[c]
  {
    assert (text + [c])[..|text|] == text;
  }

  /** So a module is numbered by its suffix, whatever decimal digits it is written in. */
  lemma NumberIsSuffix(digits: Digits, n: nat)
    requires AsciiDigits(digits)
    ensures Number(digits, PREFIX + Decimal(n)) == Ok(n)
  {
    DecimalIsRead(digits, n);
    assert (PREFIX + Decimal(n))[|PREFIX|..] == Decimal(n);
    assert PREFIX <= PREFIX + Decimal(n);
  }

  /** Names with another beginning, without a suffix, or with a suffix that is no number, are refused. */
  lemma NumberIsRefusedIff(digits: Digits, name: string)
    ensures Number(digits, name) == Err(WrongPrefix) <==> !exists suffix :: name == PREFIX + suffix
    ensures forall suffix | name == PREFIX + suffix ::
              Number(digits, name).Ok? <==> suffix != "" && forall i | 0 <= i < |suffix| :: suffix[i] in digits
  {
    if PREFIX <= name {
      assert name == PREFIX + name[|PREFIX|..];
    }
    forall suffix | name == PREFIX + suffix ensures name[|PREFIX|..] == suffix {
    }
  }

  ghost predicate Differ(digits: Digits, names: seq<string>, i: nat, j: nat)
    requires i < |names| && j < |names|
  {
    Number(digits, names[i]) != Number(digits, names[j])
  }

  ghost predicate AllDiffer(digits: Digits, names: seq<string>, k: nat)
    requires k <= |names|
  {
    forall i, j {:trigger Differ(digits, names, i, j)} | 0 <= i < j < k :: Differ(digits, names, i, j)
  }

  /** Every name carries a number, and no two the same. */
  ghost predicate Numbered(digits: Digits, names: seq<string>) {
    (forall i | 0 <= i < |names| :: Number(digits, names[i]).Ok?) && AllDiffer(digits, names, |names|)
  }

  /** Moreover the numbers are exactly 0, 1, ...: each is smaller than the number of names. */
  ghost predicate Continuous(digits: Digits, names: seq<string>) {
    Numbered(digits, names) && forall i | 0 <= i < |names| :: Number(digits, names[i]).value < |names|
  }

  /** The map from numbers to names after the first `k` names. */
  ghost predicate Discovered(digits: Digits, names: seq<string>, k: nat, discovered: map<nat, string>)
    requires k <= |names|
  {
    && (forall i | 0 <= i < k ::
          Number(digits, names[i]).Ok? && Number(digits, names[i]).value in discovered
          && discovered[Number(digits, names[i]).value] == names[i])
    && (forall n <- discovered :: discovered[n] in names && Number(digits, discovered[n]) == Ok(n))
    && AllDiffer(digits, names, k)
    && |discovered| == k
  }

  ghost function Below(n: nat): (numbers: set<nat>)
    ensures |numbers| == n
    ensures forall x: nat :: x in numbers <==> x < n
  {
    if n == 0 then {} else Below(n - 1) + {n - 1}
  }

  /** Pigeonhole: `n` different numbers are all below `n` exactly when all numbers below `n` are there. */
  lemma Pigeonhole(numbers: set<nat>, n: nat)
    requires |numbers| == n
    ensures numbers <= Below(n) <==> Below(n) <= numbers
  {
    var below := Below(n);
    if numbers <= below {
      assert below == numbers + (below - numbers);
    }
    if below <= numbers {
      assert numbers == below + (numbers - below);
    }
  }

  /** The first loop of `_validate_migration_names`. */
  method Discover(digits: Digits, names: seq<string>) returns (r: Result<map<nat, string>, NameError>)
    ensures r.Ok? <==> Numbered(digits, names)
    ensures r.Ok? ==> Discovered(digits, names, |names|, r.value)
    ensures r.Err? ==> !r.error.Gap?
  {
    var discovered: map<nat, string> := map[];
    for k := 0 to |names|
      invariant Discovered(digits, names, k, discovered)
    {
      var number := Number(digits, names[k]);
      if number.Err? {
        return Err(number.error);
      }
      if number.value in discovered {
        NotNumbered(digits, names, k, discovered, number.value);
        return Err(Duplicate);
      }
      Extend(digits, names, k, discovered, number.value);
      discovered := discovered[number.value := names[k]];
    }
    return Ok(discovered);
  }

  lemma NotNumbered(digits: Digits, names: seq<string>, k: nat, discovered: map<nat, string>, number: nat)
    requires k < |names| && Discovered(digits, names, k, discovered)
    requires Number(digits, names[k]) == Ok(number) && number in discovered
    ensures !Numbered(digits, names)
  {
    NumberAppears(digits, names, k, discovered, number);
    var i :| 0 <= i < k && Number(digits, names[i]) == Ok(number);
    assert !Differ(digits, names, i, k);
  }

  /** The map is no larger than the list it came from, so every number in it is the number of some name. */
  lemma {:induction false} NumberAppears(digits: Digits, names: seq<string>, k: nat, discovered: map<nat, string>,
                                         number: nat)
    requires k <= |names| && Discovered(digits, names, k, discovered) && number in discovered
    ensures exists i :: 0 <= i < k && Number(digits, names[i]) == Ok(number)
    decreases k
  {
    if k > 0 && Number(digits, names[k - 1]) != Ok(number) {
      var last := Number(digits, names[k - 1]).value;
      var rest := discovered - {last};
      assert rest.Keys == discovered.Keys - {last};
      forall i | 0 <= i < k - 1 ensures Number(digits, names[i]).value in rest {
        assert Differ(digits, names, i, k - 1);
      }
      assert AllDiffer(digits, names, k - 1);
      NumberAppears(digits, names, k - 1, rest, number);
    }
  }

  lemma Extend(digits: Digits, names: seq<string>, k: nat, discovered: map<nat, string>, number: nat)
    requires k < |names| && Discovered(digits, names, k, discovered)
    requires Number(digits, names[k]) == Ok(number) && number !in discovered
    ensures Discovered(digits, names, k + 1, discovered[number := names[k]])
  {
    forall i, j | 0 <= i < j < k + 1 ensures Differ(digits, names, i, j) {
      assert j == k ==> Number(digits, names[i]).value in discovered;
    }
  }

  /** `_validate_migration_names`: it succeeds if and only if the numbers are continuous, and then yields
      the given names permuted so that number `i` is at position `i`. */
  method ValidateNames(digits: Digits, names: seq<string>) returns (r: Result<seq<string>, NameError>)
    ensures r.Ok? <==> Continuous(digits, names)
    ensures r == Err(Gap) <==> Numbered(digits, names) && !Continuous(digits, names)
    ensures r.Ok? ==>
              && multiset(r.value) == multiset(names)
              && |r.value| == |names|
              && forall i | 0 <= i < |names| :: Number(digits, r.value[i]) == Ok(i)
  {
    var found := Discover(digits, names);
    if found.Err? {
      return Err(found.error);
    }
    var discovered := found.value;
    var yielded := [];
    for idx := 0 to |discovered|
      invariant |yielded| == idx
      invariant forall i | 0 <= i < idx :: i in discovered && yielded[i] == discovered[i]
    {
      if idx !in discovered {
        NotContinuous(digits, names, discovered, idx);
        return Err(Gap);
      }
      yielded := yielded + [discovered[idx]];
    }
    Permuted(digits, names, discovered, yielded);
    return Ok(yielded);
  }

  lemma NotContinuous(digits: Digits, names: seq<string>, discovered: map<nat, string>, missing: nat)
    requires Discovered(digits, names, |names|, discovered) && missing < |names| && missing !in discovered
    ensures !Continuous(digits, names)
  {
    if Continuous(digits, names) {
      forall x | x in discovered.Keys ensures x in Below(|names|) {
        assert discovered[x] in names;
      }
      Pigeonhole(discovered.Keys, |names|);
    }
  }

  lemma Permuted(digits: Digits, names: seq<string>, discovered: map<nat, string>, yielded: seq<string>)
    requires Discovered(digits, names, |names|, discovered) && |yielded| == |names|
    requires forall i | 0 <= i < |names| :: i in discovered && yielded[i] == discovered[i]
    ensures multiset(yielded) == multiset(names)
    ensures Continuous(digits, names)
    ensures forall i | 0 <= i < |names| :: Number(digits, yielded[i]) == Ok(i)
  {
    assert |discovered.Keys| == |names|;
    Pigeonhole(discovered.Keys, |names|);
    forall i | 0 <= i < |names| ensures Number(digits, names[i]).value < |names| {
      assert Number(digits, names[i]).value in discovered.Keys;
    }
    assert AllDiffer(digits, yielded, |yielded|);
    forall x ensures multiset(yielded)[x] == multiset(names)[x] {
      SameCount(digits, names, discovered, yielded, x);
    }
  }

  lemma SameCount(digits: Digits, names: seq<string>, discovered: map<nat, string>, yielded: seq<string>, x: string)
    requires Discovered(digits, names, |names|, discovered) && |yielded| == |names|
    requires forall i | 0 <= i < |names| :: i in discovered && yielded[i] == discovered[i]
    requires AllDiffer(digits, yielded, |yielded|)
    requires forall name | name in names :: Number(digits, name).Ok? && Number(digits, name).value < |names|
    ensures multiset(yielded)[x] == multiset(names)[x]
  {
    CountOnce(digits, names, |names|, x);
    CountOnce(digits, yielded, |yielded|, x);
    assert names[..|names|] == names && yielded[..|yielded|] == yielded;
    if x in names {
      assert yielded[Number(digits, x).value] == x;
    }
    if x in yielded {
      var i :| 0 <= i < |yielded| && yielded[i] == x;
      assert discovered[i] in names;
    }
  }

  lemma {:induction false} CountOnce(digits: Digits, names: seq<string>, k: nat, x: string)
    requires k <= |names| && AllDiffer(digits, names, k)
    ensures multiset(names[..k])[x] == if x in names[..k] then 1 else 0
  {
    if k > 0 {
      CountOnce(digits, names, k - 1, x);
      assert names[..k] == names[..k - 1] + [names[k - 1]];
      forall i | 0 <= i < k - 1 ensures names[i] != names[k - 1] {
        assert Differ(digits, names, i, k - 1);
      }
    }
  }

  // ----- Applying migrations --------------------------------------------------------------------

  /** The database as far as migrations see it: the number of rows in the migrations table, and the data. */
  datatype Db<+S> = Db(version: nat, data: S)

  datatype Outcome = Success | Failed(at: nat) | TooNew

  /** The reference: the effect of the first `n` migrations, each once and in order. */
  ghost function Applied<S>(migrations: seq<S -> S>, n: nat, data: S): S
    requires n <= |migrations|
  {
    if n == 0 then data else migrations[n - 1](Applied(migrations, n - 1, data))
  }

  /** One run over the missing migrations.  `fails(i)` tells whether migration `i` raises in this run, and
      what it had done to the data by then; its transaction is rolled back. */
  ghost function Remaining<S>(db: Db<S>, migrations: seq<S -> S>, fails: nat -> Option<S>): (Db<S>, Outcome)
    requires db.version <= |migrations|
    decreases |migrations| - db.version
  {
    if db.version == |migrations| then (db, Success)
    else if fails(db.version).Some? then (db, Failed(db.version))
    else Remaining(Db(db.version + 1, migrations[db.version](db.data)), migrations, fails)
  }

  ghost function Execute<S>(db: Db<S>, migrations: seq<S -> S>, fails: nat -> Option<S>): (Db<S>, Outcome) {
    if db.version > |migrations| then (db, TooNew) else Remaining(db, migrations, fails)
  }

  /** The connection to a database with atomic transactions. */
  class Connection<S> {
    var rows: nat
    var data: S

    constructor (rows: nat, data: S)
      ensures this.rows == rows && this.data == data
    {
      this.rows, this.data := rows, data;
    }

    ghost function State(): Db<S>
      reads this
    {
      Db(rows, data)
    }

    /** `async with connection.transaction()`: the migration and the row that records it. */
    method Transaction(migrate: S -> S, failure: Option<S>) returns (committed: bool)
      modifies this
      ensures committed <==> failure.None?
      ensures State() == if committed then Db(old(rows) + 1, migrate(old(data))) else old(State())
    {
      var savedRows, savedData := rows, data;
      if failure.Some? {
        data := failure.value;
        rows, data := savedRows, savedData;
        return false;
      }
      data := migrate(data);
      rows := rows + 1;
      return true;
    }

    /** `execute_migrations`, from the check of the version on. */
    method ExecuteMigrations(migrations: seq<S -> S>, fails: nat -> Option<S>) returns (outcome: Outcome)
      modifies this
      ensures (State(), outcome) == Execute(old(State()), migrations, fails)
    {
      var current := rows;
      if current > |migrations| {
        return TooNew;
      }
      for idx := 0 to |migrations| - current
        invariant rows == current + idx <= |migrations|
        invariant Remaining(State(), migrations, fails) == Remaining(old(State()), migrations, fails)
      {
        var committed := Transaction(migrations[current + idx], fails(current + idx));
        if !committed {
          return Failed(current + idx);
        }
      }
      return Success;
    }
  }

  // ----- Runs -----------------------------------------------------------------------------------

  /** A run with the migrations known at its time. */
  datatype Attempt<!S> = Attempt(migrations: seq<S -> S>, fails: nat -> Option<S>)

  ghost function AfterRuns<S>(db: Db<S>, attempts: seq<Attempt<S>>): Db<S> {
    if attempts == [] then db
    else
      var last := attempts[|attempts| - 1];
      Execute(AfterRuns(db, attempts[..|attempts| - 1]), last.migrations, last.fails).0
  }

  lemma {:induction false} AppliedOfPrefix<S>(some: seq<S -> S>, more: seq<S -> S>, n: nat, data: S)
    requires some <= more && n <= |some|
    ensures Applied(some, n, data) == Applied(more, n, data)
  {
    if n > 0 {
      AppliedOfPrefix(some, more, n - 1, data);
    }
  }

  lemma {:induction false} RemainingApplies<S>(db: Db<S>, migrations: seq<S -> S>, fails: nat -> Option<S>, data: S)
    requires db.version <= |migrations| && db.data == Applied(migrations, db.version, data)
    ensures var (after, outcome) := Remaining(db, migrations, fails);
            && db.version <= after.version <= |migrations|
            && after.data == Applied(migrations, after.version, data)
            && (outcome == Success <==> after.version == |migrations|)
            && (outcome.Failed? ==> outcome.at == after.version && fails(after.version).Some?) && !outcome.TooNew?
            && (forall i | db.version <= i < after.version :: fails(i).None?)
    decreases |migrations| - db.version
  {
    if db.version < |migrations| && fails(db.version).None? {
      RemainingApplies(Db(db.version + 1, migrations[db.version](db.data)), migrations, fails, data);
    }
  }

  /** One run: it is refused exactly for a database beyond the list; it succeeds exactly when no migration that is left
      fails, and has applied them all then; otherwise it stops before the first that fails. */
  lemma ExecuteIff<S>(db: Db<S>, migrations: seq<S -> S>, fails: nat -> Option<S>, data: S)
    requires db.version <= |migrations| ==> db.data == Applied(migrations, db.version, data)
    ensures var (after, outcome) := Execute(db, migrations, fails);
            && (outcome == TooNew <==> db.version > |migrations|)
            && (outcome == Success <==>
                  db.version <= |migrations| && forall i | db.version <= i < |migrations| :: fails(i).None?)
            && match outcome
               case TooNew => after == db
               case Success => after == Db(|migrations|, Applied(migrations, |migrations|, data))
               case Failed(at) =>
                 && db.version <= at < |migrations| && fails(at).Some?
                 && (forall i | db.version <= i < at :: fails(i).None?)
                 && after == Db(at, Applied(migrations, at, data))
  {
    if db.version <= |migrations| {
      RemainingApplies(db, migrations, fails, data);
    }
  }

  /** Over any sequence of runs that fail anywhere, with a list of migrations that is only ever extended,
      the data is always the effect of the first `version` migrations, each applied once and in order. */
  lemma {:induction false} RunsResume<S>(data: S, attempts: seq<Attempt<S>>, all: seq<S -> S>)
    requires forall i | 0 <= i < |attempts| :: attempts[i].migrations <= all
    ensures var db := AfterRuns(Db(0, data), attempts);
            db.version <= |all| && db.data == Applied(all, db.version, data)
    decreases |attempts|
  {
    if attempts != [] {
      var n := |attempts| - 1;
      var before := attempts[..n];
      assert forall i | 0 <= i < |before| :: before[i] == attempts[i];
      RunsResume(data, before, all);
      var db, last := AfterRuns(Db(0, data), before), attempts[n];
      if db.version <= |last.migrations| {
        AppliedOfPrefix(last.migrations, all, db.version, data);
        RemainingApplies(db, last.migrations, last.fails, data);
        var after := Remaining(db, last.migrations, last.fails).0;
        AppliedOfPrefix(last.migrations, all, after.version, data);
      }
    }
  }

  /** Migrations that just log their own number. */
  ghost function Logging(n: nat): seq<seq<nat> -> seq<nat>> {
    seq(n, i requires 0 <= i < n => (log: seq<nat>) => log + [i])
  }

  lemma {:induction false} LoggedInOrder(n: nat, k: nat)
    requires k <= n
    ensures Applied(Logging(n), k, []) == seq(k, i => i)
  {
    if k > 0 {
      LoggedInOrder(n, k - 1);
    }
  }

  /** As a log: after any runs exactly the migrations 0 to `version - 1` have been applied, in that order. */
  lemma AppliedLogIsAPrefix(n: nat, attempts: seq<Attempt<seq<nat>>>)
    requires forall i | 0 <= i < |attempts| :: attempts[i].migrations <= Logging(n)
    ensures var db := AfterRuns(Db(0, []), attempts);
            db.version <= n && db.data == seq(db.version, i => i)
  {
    RunsResume([], attempts, Logging(n));
    LoggedInOrder(n, AfterRuns(Db(0, []), attempts).version);
  }
}
