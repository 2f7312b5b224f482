/**
 The argument and environment tables that init/main.c fills from unknown boot options, and the notice
 it prints about them. Both tables have MAX+2 slots and are scanned up to their first NULL.
 */
module BootTables {
  import CString
  import opened Options

  datatype Slot = Null | Str(s: string)

  datatype Panic = NoPanic | TooManyArgs(param: string) | TooManyEnvs(param: string)

  /** What obsolete_checksetup makes of an option: not its business, handled, or handled by init= or rdinit=. */
  datatype Setup = NotSetup | Handled | InitOption

  // ---------------------------------------------------------------------------------------------
  // Tables as sequences

  /** The strings from slot `i` up to the first NULL. */
  function Visible(t: seq<Slot>, i: nat): seq<string>
    decreases |t| - i
  {
    if i < |t| && t[i].Str? then [t[i].s] + Visible(t, i + 1) else []
  }

  function FirstNull(t: seq<Slot>, i: nat): (n: nat)
    requires i <= |t|
    ensures i <= n <= |t| && (n < |t| ==> t[n].Null?)
    ensures forall k :: i <= k < n ==> t[k].Str?
    decreases |t| - i
  {
    if i < |t| && t[i].Str? then FirstNull(t, i + 1) else i
  }

  predicate Terminated(t: seq<Slot>) {
    t != [] && t[|t| - 1].Null?
  }

  // ---------------------------------------------------------------------------------------------
  // The environment as a map

  /** The parser splits an option at its first '=', not counting one at the very beginning. */
  predicate GoodKey(key: string) {
    key != [] && '=' !in key[1..]
  }

  predicate IsEntry(e: string) {
    e != [] && '=' in e[1..]
  }

  /** The characters up to the first '='. */
  function Name(e: string): string {
    if e == [] || e[0] == '=' then [] else [e[0]] + Name(e[1..])
  }

  /** The characters after the first '='. */
  function Rest(e: string): string {
    if e == [] then [] else if e[0] == '=' then e[1..] else Rest(e[1..])
  }

  function KeyOf(e: string): string {
    if e == [] then [] else [e[0]] + Name(e[1..])
  }

  function ValueOf(e: string): string {
    if e == [] then [] else Rest(e[1..])
  }

  /** The source compares one character more than the key: the entry must begin with the key and an '='. */
  predicate Matches(key: string, e: string) {
    key + "=" <= e
  }

  function EnvMap(es: seq<string>): map<string, string> {
    if es == [] then map[] else EnvMap(es[..|es| - 1])[KeyOf(es[|es| - 1]) := ValueOf(es[|es| - 1])]
  }

  /** One entry per key. */
  ghost predicate ProperEnv(es: seq<string>) {
    && (forall i :: 0 <= i < |es| ==> IsEntry(es[i]))
    && (forall i, j :: 0 <= i < j < |es| ==> KeyOf(es[i]) != KeyOf(es[j]))
  }

  /** The position of the entry for `key`, or the number of entries. */
  function Find(es: seq<string>, key: string, i: nat): (n: nat)
    requires i <= |es|
    ensures i <= n <= |es| && (n < |es| ==> Matches(key, es[n]))
    ensures forall k :: i <= k < n ==> !Matches(key, es[k])
    decreases |es| - i
  {
    if i < |es| && !Matches(key, es[i]) then Find(es, key, i + 1) else i
  }

  function PutEnv(es: seq<string>, key: string, value: string): seq<string> {
    var n := Find(es, key, 0);
    if n < |es| then es[n := key + "=" + value] else es + [key + "=" + value]
  }

  /** A NULL-terminated table with nothing behind its first NULL and at least the two default variables. */
  ghost predicate GoodEnv(t: seq<Slot>) {
    Terminated(t) && 2 <= FirstNull(t, 0) && forall i :: FirstNull(t, 0) <= i < |t| ==> t[i].Null?
  }

  const DEFAULT_ENV: seq<string> := ["HOME=/", "TERM=linux"]

  lemma DefaultEnv(t: seq<Slot>)
    requires 2 < |t| && t[0] == Str("HOME=/") && t[1] == Str("TERM=linux")
    requires forall i :: 2 <= i < |t| ==> t[i].Null?
    ensures Visible(t, 0) == DEFAULT_ENV && GoodEnv(t)
  {
    assert Visible(t, 2) == [];
    assert Visible(t, 1) == ["TERM=linux"];
    assert FirstNull(t, 2) == 2 && FirstNull(t, 1) == 2;
  }

  lemma DefaultsProper()
    ensures ProperEnv(DEFAULT_ENV)
  {
    assert "HOME"[0] != "TERM"[0];
    ProperPair("HOME", "/", "TERM", "linux");
    assert "HOME" + "=" + "/" == "HOME=/" && "TERM" + "=" + "linux" == "TERM=linux";
  }

  lemma ProperPair(k: string, v: string, k': string, v': string)
    requires GoodKey(k) && GoodKey(k') && k != k'
    ensures ProperEnv([k + "=" + v, k' + "=" + v'])
  {
    EntryParts(k, v);
    EntryParts(k', v');
  }

  // ---------------------------------------------------------------------------------------------
  // What an option does to the tables

  /** Both tables as sequences, and the panic that is due. */
  datatype Boot = Boot(argv: seq<Slot>, envp: seq<Slot>, panic: Panic)

  /** Until a panic is due both tables are NULL-terminated. */
  ghost predicate Sound(max: nat, b: Boot) {
    && 1 <= max && |b.argv| == |b.envp| == max + 2 && b.argv[0].Str?
    && (b.panic == NoPanic ==> Terminated(b.argv) && GoodEnv(b.envp))
  }

  /** The tables at boot. */
  function Initial(max: nat): Boot {
    Boot(seq(max + 2, i => if i == 0 then Str("init") else Null),
         seq(max + 2, i => if i == 0 then Str("HOME=/") else if i == 1 then Str("TERM=linux") else Null),
         NoPanic)
  }

  lemma InitialSound(max: nat)
    requires 1 <= max
    ensures Sound(max, Initial(max)) && Visible(Initial(max).envp, 0) == DEFAULT_ENV
    ensures Visible(Initial(max).argv, 0) == ["init"] && FirstNull(Initial(max).argv, 0) == 1
  {
    var b := Initial(max);
    DefaultEnv(b.envp);
    assert Visible(b.argv, 1) == [];
    assert FirstNull(b.argv, 1) == 1;
  }

  /** An option with a value that goes to init: replaced or appended, and too many if slot MAX is looked at and in use. */
  function EnvStep(max: nat, b: Boot, key: string, value: string): Boot {
    var es := Visible(b.envp, 0);
    var k := Find(es, key, 0);
    b.(envp := if k < |b.envp| then b.envp[k := Str(key + "=" + value)] else b.envp,
    panic := if |es| == max + 1 && max <= k then TooManyEnvs(key + "=" + value) else b.panic)
  }

  /** An option without a value: appended, into the last slot if need be, which is one too many. */
  function ArgStep(b: Boot, param: string): Boot {
    var n := FirstNull(b.argv, 0);
    b.(argv := if n < |b.argv| then b.argv[n := Str(param)] else b.argv,
    panic := if n + 1 == |b.argv| then TooManyArgs(param) else b.panic)
  }

  /** An option after "--": appended, unless that would take the last slot. */
  function InitArgStep(b: Boot, param: string): Boot {
    var n := FirstNull(b.argv, 0);
    if b.panic != NoPanic then b
    else if n + 1 < |b.argv| then b.(argv := b.argv[n := Str(param)])
    else b.(panic := TooManyArgs(param))
  }

  function Cleared(argv: seq<Slot>, max: nat): seq<Slot> {
    seq(|argv|, i requires 0 <= i < |argv| => if 1 <= i < max then Null else argv[i])
  }

  datatype Opt =
    | Unknown(key: string, value: Option<string>, sysctlAlias: bool, setup: Setup)
    | AfterDashes(param: string)

  /** Whether an option reaches the tables of init. */
  predicate ForInit(o: Opt) {
    o.Unknown? && !o.sysctlAlias && o.setup == NotSetup && '.' !in o.key
  }

  predicate ClearsArgs(o: Opt) {
    o.Unknown? && !o.sysctlAlias && o.setup == InitOption
  }

  function Step(max: nat, b: Boot, o: Opt): Boot {
    if o.AfterDashes? then InitArgStep(b, o.param)
    else if ClearsArgs(o) then b.(argv := Cleared(b.argv, max))
    else if !ForInit(o) || b.panic != NoPanic then b
    else if o.value.Some? then EnvStep(max, b, o.key, o.value.value)
    else ArgStep(b, o.key)
  }

  // ---------------------------------------------------------------------------------------------
  // The tables in memory

  class Tables {
    const max: nat
    const argv: array<Slot>
    const envp: array<Slot>
    var panicLater: Panic

    ghost predicate Shape()
      reads this
    {
      1 <= max && argv.Length == envp.Length == max + 2 && argv != envp
    }

    ghost function View(): Boot
      reads this, argv, envp
    {
      Boot(argv[..], envp[..], panicLater)
    }

    ghost predicate Valid()
      reads this, argv, envp
    {
      Shape() && Sound(max, View())
    }

    constructor (max: nat)
      requires 1 <= max
      ensures Valid() && View() == Initial(max) && this.max == max && fresh(argv) && fresh(envp)
    {
      this.max := max;
      argv := new Slot[max + 2](i => if i == 0 then Str("init") else Null);
      envp := new Slot[max + 2](i => if i == 0 then Str("HOME=/") else if i == 1 then Str("TERM=linux") else Null);
      panicLater := NoPanic;
      new;
      assert argv[..] == Initial(max).argv && envp[..] == Initial(max).envp;
      InitialSound(max);
    }

    /** set_init_arg: everything after "--" goes to init. A full table is left alone. */
    method SetInitArg(param: string)
      requires Valid()
      modifies this`panicLater, argv
      ensures Valid() && View() == InitArgStep(old(View()), param)
    {
      if panicLater != NoPanic {
        return;
      }
      ghost var n := FirstNull(argv[..], 0);
      var i := 0;
      while argv[i].Str?
        invariant 0 <= i <= n && i <= max && panicLater == NoPanic
        invariant argv[..] == old(argv[..])
        decreases argv.Length - i
      {
        if i == max {
          panicLater := TooManyArgs(param);
          return;
        }
        i := i + 1;
      }
      argv[i] := Str(param);
    }

    /** init_setup and rdinit_setup: forget the arguments seen so far. */
    method InitSetup()
      requires Valid()
      modifies argv
      ensures Valid() && argv[..] == Cleared(old(argv[..]), max)
    {
      var i := 1;
      while i < max
        invariant 1 <= i <= max
        invariant forall k :: 0 <= k < argv.Length ==> argv[k] == if 1 <= k < i then Null else old(argv[k])
      {
        argv[i] := Null;
        i := i + 1;
      }
    }

    /** The environment branch of unknown_bootoption. */
    method SetEnv(key: string, value: string)
      requires Valid() && panicLater == NoPanic
      modifies this`panicLater, envp
      ensures Valid() && View() == EnvStep(max, old(View()), key, value)
      ensures Find(Visible(old(envp[..]), 0), key, 0) < envp.Length
      ensures panicLater == NoPanic ==> Visible(envp[..], 0) == PutEnv(Visible(old(envp[..]), 0), key, value)
    {
      var param := key + "=" + value;
      var i := SearchEnv(key, param);
      envp[i] := Str(param);
      assert envp[..] == old(envp[..])[i := Str(param)];
      if panicLater == NoPanic {
        StoredEnv(old(envp[..]), i, key, value);
      }
    }

    /** Its loop: the slot of the entry with this key, or the first free one; a panic is due once slot MAX is in use. */
    method SearchEnv(key: string, param: string) returns (i: nat)
      requires Shape() && panicLater == NoPanic && Terminated(envp[..])
      modifies this`panicLater
      ensures var es := Visible(envp[..], 0);
              && |es| == FirstNull(envp[..], 0) < envp.Length && i == Find(es, key, 0)
              && panicLater == if |es| == max + 1 && max <= i then TooManyEnvs(param) else NoPanic
    {
      ghost var es, n := Visible(envp[..], 0), FirstNull(envp[..], 0);
      VisibleAt(envp[..], 0);
      i := 0;
      while envp[i].Str?
        invariant 0 <= i <= n
        invariant Find(es, key, 0) == Find(es, key, i)
        invariant panicLater == if max < i then TooManyEnvs(param) else NoPanic
        decreases envp.Length - i
      {
        assert envp[..][i] == Str(es[i]);
        if i == max {
          panicLater := TooManyEnvs(param);
        }
        if Matches(key, envp[i].s) {
          break;
        }
        i := i + 1;
      }
    }

    /** The argument branch of unknown_bootoption. A full table still gets the argument, in its last slot. */
    method AppendArg(param: string)
      requires Valid() && panicLater == NoPanic
      modifies this`panicLater, argv
      ensures Valid() && View() == ArgStep(old(View()), param) && FirstNull(old(argv[..]), 0) < argv.Length
    {
      ghost var n := FirstNull(argv[..], 0);
      var i := 0;
      while argv[i].Str?
        invariant 0 <= i <= n
        invariant argv[..] == old(argv[..])
        invariant panicLater == if max < i then TooManyArgs(param) else NoPanic
        decreases argv.Length - i
      {
        if i == max {
          panicLater := TooManyArgs(param);
        }
        i := i + 1;
      }
      argv[i] := Str(param);
    }

    /** The buffer length that print_unknown_bootoptions computes for one table. */
    static method Measure(t: seq<Slot>, from: nat, start: nat) returns (len: nat)
      requires from < |t| && FirstNull(t, from) < |t|
      ensures len == start + |Spaced(Visible(t, from))|
    {
      len := start;
      var p := from;
      SpacedSplit(t, from);
      while t[p].Str?
        invariant from <= p <= FirstNull(t, from)
        invariant len == start + |Spaced(Visible(t, from))| - |Spaced(Visible(t, p))|
        decreases |t| - p
      {
        SpacedSplit(t, p);
        len := len + 1;
        len := len + |t[p].s|;
        p := p + 1;
      }
    }

    /** sprintf(buf + at, " %s", str) */
    static method Sprint(buf: array<char>, at: nat, str: string)
      requires at + |str| + 1 < buf.Length
      modifies buf
      ensures buf[..at + |str| + 1] == old(buf[..at]) + (" " + str) && buf[at + |str| + 1] == '\0'
    {
      var text := " " + str;
      CString.StrCpy(buf, at, text);
      assert buf[..at + |text|] == buf[..at] + buf[at..at + |text|];
    }

    /** The printing loop over one table; each call ends the text so far with a NUL. */
    static method PrintAll(t: seq<Slot>, from: nat, buf: array<char>, at: nat) returns (end: nat)
      requires from < |t| && FirstNull(t, from) < |t|
      requires at + |Spaced(Visible(t, from))| < buf.Length
      modifies buf
      ensures end == at + |Spaced(Visible(t, from))|
      ensures buf[..end] == old(buf[..at]) + Spaced(Visible(t, from))
      ensures if Visible(t, from) == [] then buf[end] == old(buf[end]) else buf[end] == '\0'
    {
      end := at;
      var p := from;
      ghost var done := "";
      while t[p].Str?
        invariant from <= p <= FirstNull(t, from) == FirstNull(t, p)
        invariant end == at + |done| && done + Spaced(Visible(t, p)) == Spaced(Visible(t, from))
        invariant buf[..end] == old(buf[..at]) + done
        invariant if p == from then buf[end] == old(buf[end]) else buf[end] == '\0'
        decreases |t| - p
      {
        SpacedSplit(t, p);
        ghost var text := " " + t[p].s;
        Regroup(done, text, Spaced(Visible(t, p + 1)));
        end := PrintOne(buf, end, t[p].s, old(buf[..at]), done);
        done := done + text;
        p := p + 1;
      }
      SpacedSplit(t, p);
    }

    static method PrintOne(buf: array<char>, end: nat, str: string, ghost before: string, ghost done: string) returns (end': nat)
      requires end + |str| + 1 < buf.Length && buf[..end] == before + done
      modifies buf
      ensures end' == end + |str| + 1 && buf[..end'] == before + (done + (" " + str)) && buf[end'] == '\0'
    {
      Sprint(buf, end, str);
      end' := end + |str| + 1;
      assert (before + done) + (" " + str) == before + (done + (" " + str));
    }

    static method MeasureBoth(args: seq<Slot>, envs: seq<Slot>) returns (len: nat)
      requires 1 < |args| && 2 < |envs| && Terminated(args) && Terminated(envs)
      ensures len == |Spaced(Visible(args, 1))| + |Spaced(Visible(envs, 2))| + 1
      ensures args[1].Str? || envs[2].Str? ==> len > 1 && (Visible(args, 1) != [] || Visible(envs, 2) != [])
    {
      SpacedSplit(args, 1);
      SpacedSplit(envs, 2);
      len := Measure(args, 1, 1);
      len := Measure(envs, 2, len);
    }

    /** Size, allocate, print. */
    static method Notice(args: seq<Slot>, envs: seq<Slot>) returns (text: string, len: nat)
      requires 1 < |args| && 2 < |envs| && Terminated(args) && Terminated(envs)
      requires args[1].Str? || envs[2].Str?
      ensures text == Spaced(Visible(args, 1)) + Spaced(Visible(envs, 2)) && len == |text| + 1 && text != []
    {
      len := MeasureBoth(args, envs);
      var buf := new char[len](_ => '\0');
      var end := PrintAll(args, 1, buf, 0);
      end := PrintAll(envs, 2, buf, end);
      assert buf[end] == '\0' && end + 1 == len;
      text := buf[..end];
    }

    /**
     print_unknown_bootoptions: nothing to say, or the text of the notice with the buffer length that was
     computed for it. The text with its NUL fills the buffer exactly.
     */
    method PrintUnknownBootOptions(haveMemory: bool) returns (notice: Option<string>, len: nat)
      requires Valid()
      ensures notice.None? <==> panicLater != NoPanic || (argv[1].Null? && envp[2].Null?) || !haveMemory
      ensures notice.Some? ==> var text := Spaced(Visible(argv[..], 1)) + Spaced(Visible(envp[..], 2));
                               notice.value == text[1..] && len == |text| + 1
    {
      len := 0;
      if panicLater != NoPanic || (argv[1].Null? && envp[2].Null?) {
        return None, len;
      }
      if !haveMemory {
        return None, len;
      }
      var text;
      text, len := Notice(argv[..], envp[..]);
      return Some(text[1..]), len;
    }

    method UnknownBootOption(key: string, value: Option<string>, sysctlAlias: bool, setup: Setup)
      requires Valid()
      modifies this`panicLater, argv, envp
      ensures Valid() && View() == Step(max, old(View()), Unknown(key, value, sysctlAlias, setup))
    {
      if sysctlAlias {
        return;
      }
      match setup {
        case InitOption =>
          InitSetup();
          return;
        case Handled =>
          return;
        case NotSetup =>
      }
      if '.' in key {
        return;
      }
      if panicLater != NoPanic {
        return;
      }
      match value {
        case Some(v) => SetEnv(key, v);
        case None => AppendArg(key);
      }
    }
  }

  // ---------------------------------------------------------------------------------------------
  // Tables and what is visible of them

  lemma {:induction false} FirstNullIs(t: seq<Slot>, i: nat, n: nat)
    requires i <= n <= |t| && (forall k :: i <= k < n ==> t[k].Str?) && (n < |t| ==> t[n].Null?)
    ensures FirstNull(t, i) == n
    decreases |t| - i
  {
    if i < n {
      FirstNullIs(t, i + 1, n);
    }
  }

  lemma {:induction false} VisibleAt(t: seq<Slot>, i: nat)
    requires i <= |t|
    ensures |Visible(t, i)| == FirstNull(t, i) - i
    ensures forall k :: 0 <= k < |Visible(t, i)| ==> t[i + k] == Str(Visible(t, i)[k])
    decreases |t| - i
  {
    if i < |t| && t[i].Str? {
      VisibleAt(t, i + 1);
    }
  }

  lemma {:induction false} VisibleIs(t: seq<Slot>, i: nat, vs: seq<string>)
    requires i + |vs| < |t| && t[i + |vs|].Null? && forall k :: i <= k < i + |vs| ==> t[k] == Str(vs[k - i])
    ensures Visible(t, i) == vs
    decreases |vs|
  {
    if vs != [] {
      VisibleIs(t, i + 1, vs[1..]);
    }
  }

  lemma SameVisible(t: seq<Slot>, vs: seq<string>)
    requires |vs| == FirstNull(t, 0) && forall k :: 0 <= k < |vs| ==> t[k] == Str(vs[k])
    ensures Visible(t, 0) == vs
  {
    VisibleAt(t, 0);
    assert forall k :: 0 <= k < |vs| ==> t[k] == Str(Visible(t, 0)[k]);
  }

  /** Storing below the first NULL replaces one string; storing at it, with a NULL after it, appends one. */
  lemma VisibleUpdate(t: seq<Slot>, k: nat, s: string)
    requires k <= FirstNull(t, 0) && k < |t| && (k == FirstNull(t, 0) && k + 1 < |t| ==> t[k + 1].Null?)
    ensures var vs := Visible(t, 0);
            Visible(t[k := Str(s)], 0) == if k < |vs| then vs[k := s] else vs + [s]
    ensures FirstNull(t[k := Str(s)], 0) == if k < FirstNull(t, 0) then FirstNull(t, 0) else k + 1
  {
    var t', n := t[k := Str(s)], FirstNull(t, 0);
    FirstNullIs(t', 0, if k < n then n else k + 1);
    VisibleAt(t, 0);
    var vs := Visible(t, 0);
    SameVisible(t', if k < n then vs[k := s] else vs + [s]);
  }

  /** The text of the notice: a space before each string. */
  function Spaced(vs: seq<string>): string {
    if vs == [] then [] else " " + vs[0] + Spaced(vs[1..])
  }

  lemma Regroup(a: string, b: string, c: string)
    ensures a + (b + c) == (a + b) + c && |a + (b + c)| == |a| + |b| + |c|
  {
  }

  lemma SpacedSplit(t: seq<Slot>, i: nat)
    requires i < |t|
    ensures t[i].Str? ==> Spaced(Visible(t, i)) == " " + t[i].s + Spaced(Visible(t, i + 1)) && FirstNull(t, i) == FirstNull(t, i + 1)
    ensures t[i].Null? ==> Spaced(Visible(t, i)) == [] && FirstNull(t, i) == i
  {
    if t[i].Str? {
      assert Visible(t, i)[1..] == Visible(t, i + 1);
    }
  }

  // ---------------------------------------------------------------------------------------------
  // The environment behaves as a map

  lemma MatchesSplit(key: string, e: string)
    requires key != [] && e != []
    ensures Matches(key, e) <==> key[0] == e[0] && Matches(key[1..], e[1..])
  {
    var k, r := key[1..] + "=", e[1..];
    assert key + "=" == [key[0]] + k && e == [e[0]] + r;
    if key[0] == e[0] && k <= r {
      assert e[..|key| + 1] == [e[0]] + r[..|k|];
    }
  }

  lemma {:induction false} MatchesIsName(key: string, e: string)
    requires '=' in e && '=' !in key
    ensures Matches(key, e) <==> Name(e) == key
    ensures Matches(key, e) ==> e == key + "=" + Rest(e)
  {
    if e[0] == '=' {
      if key != [] {
        assert (key + "=")[0] == key[0] != '=';
      }
      assert e == "=" + e[1..];
    } else {
      assert '=' in e[1..] by {
        var i :| 0 <= i < |e| && e[i] == '=';
        assert e[1..][i - 1] == '=';
      }
      if key == [] {
        assert ("" + "=")[0] == '=';
      } else {
        MatchesIsName(key[1..], e[1..]);
        MatchesSplit(key, e);
        Prefixed(key, e, Rest(e));
      }
    }
  }

  lemma Prefixed(key: string, e: string, rest: string)
    requires key != [] && e != []
    ensures key[0] == e[0] && e[1..] == key[1..] + "=" + rest ==> e == key + "=" + rest
  {
    assert e == [e[0]] + e[1..] && key == [key[0]] + key[1..];
    assert key + "=" + rest == [key[0]] + (key[1..] + "=" + rest);
  }

  /** The comparison of one character more than the key finds exactly the entry with that key. */
  lemma MatchesIsKey(key: string, e: string)
    requires IsEntry(e) && GoodKey(key)
    ensures Matches(key, e) <==> KeyOf(e) == key
    ensures Matches(key, e) ==> e == key + "=" + ValueOf(e)
  {
    MatchesSplit(key, e);
    MatchesIsName(key[1..], e[1..]);
    Prefixed(key, e, ValueOf(e));
    assert key == [key[0]] + key[1..];
  }

  lemma EntryParts(key: string, value: string)
    requires GoodKey(key)
    ensures var e := key + "=" + value; IsEntry(e) && KeyOf(e) == key && ValueOf(e) == value
  {
    var e := key + "=" + value;
    assert e[1..][|key| - 1] == '=';
    assert e[..|key| + 1] == key + "=";
    MatchesIsKey(key, e);
    assert e[|key| + 1..] == value;
    assert (key + "=" + ValueOf(e))[|key| + 1..] == ValueOf(e);
  }

  lemma PutEnvProper(es: seq<string>, key: string, value: string)
    requires ProperEnv(es) && GoodKey(key)
    ensures ProperEnv(PutEnv(es, key, value))
  {
    EntryParts(key, value);
    var n := Find(es, key, 0);
    forall i | 0 <= i < |es|
      ensures KeyOf(es[i]) == key <==> i == n
    {
      MatchesIsKey(key, es[i]);
      if n < |es| {
        MatchesIsKey(key, es[n]);
      }
    }
  }

  lemma StoredEnv(t: seq<Slot>, i: nat, key: string, value: string)
    requires GoodEnv(t) && i == Find(Visible(t, 0), key, 0) < |t|
    requires i < |Visible(t, 0)| || i + 1 < |t|
    ensures var t' := t[i := Str(key + "=" + value)]; GoodEnv(t') && Visible(t', 0) == PutEnv(Visible(t, 0), key, value)
  {
    VisibleAt(t, 0);
    VisibleUpdate(t, i, key + "=" + value);
  }

  lemma ReplaceLast(es: seq<string>, e: string)
    requires es != [] && KeyOf(e) == KeyOf(es[|es| - 1])
    ensures EnvMap(es[|es| - 1 := e]) == EnvMap(es)[KeyOf(e) := ValueOf(e)]
  {
    var m := |es| - 1;
    assert es[m := e][..m] == es[..m];
    SetTwice(EnvMap(es[..m]), KeyOf(e), ValueOf(es[m]), ValueOf(e));
  }

  lemma ReplaceBefore(es: seq<string>, n: nat, e: string)
    requires n < |es| - 1 && KeyOf(e) != KeyOf(es[|es| - 1])
    requires EnvMap(es[..|es| - 1][n := e]) == EnvMap(es[..|es| - 1])[KeyOf(e) := ValueOf(e)]
    ensures EnvMap(es[n := e]) == EnvMap(es)[KeyOf(e) := ValueOf(e)]
  {
    var m := |es| - 1;
    assert es[n := e][..m] == es[..m][n := e];
    SetBoth(EnvMap(es[..m]), KeyOf(e), ValueOf(e), KeyOf(es[m]), ValueOf(es[m]));
  }

  lemma {:induction false} ReplaceEntry(es: seq<string>, n: nat, e: string)
    requires n < |es| && ProperEnv(es) && KeyOf(e) == KeyOf(es[n])
    ensures EnvMap(es[n := e]) == EnvMap(es)[KeyOf(e) := ValueOf(e)]
  {
    if n == |es| - 1 {
      ReplaceLast(es, e);
    } else {
      ReplaceEntry(es[..|es| - 1], n, e);
      ReplaceBefore(es, n, e);
    }
  }

  lemma SetTwice(m: map<string, string>, k: string, v: string, v': string)
    ensures m[k := v][k := v'] == m[k := v']
  {
  }

  lemma SetBoth(m: map<string, string>, k: string, v: string, k': string, v': string)
    requires k != k'
    ensures m[k := v][k' := v'] == m[k' := v'][k := v]
  {
  }

  /** Setting a variable is a map update: the last writer wins and no key appears twice. */
  lemma PutEnvIsUpdate(es: seq<string>, key: string, value: string)
    requires ProperEnv(es) && GoodKey(key)
    ensures EnvMap(PutEnv(es, key, value)) == EnvMap(es)[key := value]
  {
    EntryParts(key, value);
    var n, e := Find(es, key, 0), key + "=" + value;
    if n < |es| {
      MatchesIsKey(key, es[n]);
      ReplaceEntry(es, n, e);
    } else {
      assert (es + [e])[..|es|] == es;
    }
  }

  function PutEnvs(es: seq<string>, opts: seq<(string, string)>): seq<string> {
    if opts == [] then es
    else PutEnv(PutEnvs(es, opts[..|opts| - 1]), opts[|opts| - 1].0, opts[|opts| - 1].1)
  }

  function Updates(m: map<string, string>, opts: seq<(string, string)>): map<string, string> {
    if opts == [] then m else Updates(m, opts[..|opts| - 1])[opts[|opts| - 1].0 := opts[|opts| - 1].1]
  }

  /** Over every sequence of environment options the table stays the map they describe, one entry per key. */
  lemma {:induction false} EnvironmentIsMap(es: seq<string>, opts: seq<(string, string)>)
    requires ProperEnv(es) && forall i :: 0 <= i < |opts| ==> GoodKey(opts[i].0)
    ensures ProperEnv(PutEnvs(es, opts))
    ensures EnvMap(PutEnvs(es, opts)) == Updates(EnvMap(es), opts)
    ensures |EnvMap(PutEnvs(es, opts))| == |PutEnvs(es, opts)|
  {
    if opts != [] {
      var n := |opts| - 1;
      EnvironmentIsMap(es, opts[..n]);
      PutEnvProper(PutEnvs(es, opts[..n]), opts[n].0, opts[n].1);
      PutEnvIsUpdate(PutEnvs(es, opts[..n]), opts[n].0, opts[n].1);
    }
    EnvMapSize(PutEnvs(es, opts));
  }

  lemma {:induction false} EnvMapKeys(es: seq<string>, k: string)
    ensures k in EnvMap(es) ==> exists i :: 0 <= i < |es| && KeyOf(es[i]) == k
  {
    if es != [] {
      var n := |es| - 1;
      EnvMapKeys(es[..n], k);
      if k == KeyOf(es[n]) {
      } else if k in EnvMap(es) {
        var i :| 0 <= i < |es[..n]| && KeyOf(es[..n][i]) == k;
        assert KeyOf(es[i]) == k;
      }
    }
  }

  lemma {:induction false} EnvMapSize(es: seq<string>)
    requires ProperEnv(es)
    ensures |EnvMap(es)| == |es|
  {
    if es != [] {
      var n := |es| - 1;
      EnvMapSize(es[..n]);
      EnvMapKeys(es[..n], KeyOf(es[n]));
      assert EnvMap(es).Keys == EnvMap(es[..n]).Keys + {KeyOf(es[n])};
    }
  }

  lemma {:induction false} EnvMapHas(es: seq<string>, i: nat)
    requires i < |es|
    ensures KeyOf(es[i]) in EnvMap(es)
  {
    if i < |es| - 1 {
      EnvMapHas(es[..|es| - 1], i);
    }
  }

  // ---------------------------------------------------------------------------------------------
  // Runs of mixed options

  function RunOpts(max: nat, b: Boot, opts: seq<Opt>): Boot {
    if opts == [] then b else Step(max, RunOpts(max, b, opts[..|opts| - 1]), opts[|opts| - 1])
  }

  /** The variables that a sequence of options sets for init, in order. */
  function EnvOpts(opts: seq<Opt>): seq<(string, string)> {
    if opts == [] then []
    else
      var o := opts[|opts| - 1];
      EnvOpts(opts[..|opts| - 1]) + if ForInit(o) && o.value.Some? then [(o.key, o.value.value)] else []
  }

  /** The arguments that a sequence of options gives to init, in order. */
  function ArgOpts(opts: seq<Opt>): seq<string> {
    if opts == [] then []
    else
      var o := opts[|opts| - 1];
      ArgOpts(opts[..|opts| - 1])
      + if o.AfterDashes? then [o.param] else if ForInit(o) && o.value.None? then [o.key] else []
  }

  ghost predicate GoodOpts(opts: seq<Opt>) {
    forall i :: 0 <= i < |opts| ==> opts[i].Unknown? && opts[i].value.Some? ==> GoodKey(opts[i].key)
  }

  ghost predicate NoneClears(opts: seq<Opt>) {
    forall i :: 0 <= i < |opts| ==> !ClearsArgs(opts[i])
  }

  /** One more string at the first NULL of a table without gaps behind it. */
  lemma Appended(t: seq<Slot>, s: string)
    requires Terminated(t) && FirstNull(t, 0) + 1 < |t|
    ensures var t' := t[FirstNull(t, 0) := Str(s)];
            Terminated(t') && (t[FirstNull(t, 0) + 1].Null? ==> Visible(t', 0) == Visible(t, 0) + [s])
  {
    var n := FirstNull(t, 0);
    if t[n + 1].Null? {
      VisibleAt(t, 0);
      VisibleUpdate(t, n, s);
    }
  }

  lemma EnvStepSound(max: nat, b: Boot, key: string, value: string)
    requires Sound(max, b) && b.panic == NoPanic
    ensures var b' := EnvStep(max, b, key, value);
            Sound(max, b') && (b'.panic == NoPanic ==> Visible(b'.envp, 0) == PutEnv(Visible(b.envp, 0), key, value))
  {
    VisibleAt(b.envp, 0);
    var k := Find(Visible(b.envp, 0), key, 0);
    if EnvStep(max, b, key, value).panic == NoPanic {
      StoredEnv(b.envp, k, key, value);
    }
  }

  lemma StepKeepsSound(max: nat, b: Boot, o: Opt)
    requires Sound(max, b)
    ensures Sound(max, Step(max, b, o))
    ensures b.panic != NoPanic ==> Step(max, b, o).panic == b.panic && Step(max, b, o).envp == b.envp
  {
    if ForInit(o) && b.panic == NoPanic && o.value.Some? {
      EnvStepSound(max, b, o.key, o.value.value);
    }
  }

  /** Where an option goes: elsewhere, to the environment, to the arguments, or it makes room for others. */
  lemma WhereOptionsGo(max: nat, b: Boot, key: string, value: Option<string>, sysctlAlias: bool, setup: Setup)
    requires Sound(max, b)
    ensures var b' := Step(max, b, Unknown(key, value, sysctlAlias, setup));
            var taken := sysctlAlias || setup == Handled || (setup == NotSetup && '.' in key);
            && (taken || (b.panic != NoPanic && setup != InitOption) ==> b' == b)
            && (!taken && setup == InitOption ==>
                  && b'.envp == b.envp && b'.panic == b.panic && |b'.argv| == |b.argv|
                  && forall i :: 0 <= i < |b.argv| ==> b'.argv[i] == if i == 0 || max <= i then b.argv[i] else Null)
            && (!taken && setup == NotSetup && b.panic == NoPanic && value.Some? ==>
                  && b'.argv == b.argv && |b'.envp| == |b.envp|
                  && (b'.panic == NoPanic ==> Str(key + "=" + value.value) in b'.envp))
            && (!taken && setup == NotSetup && b.panic == NoPanic && value.None? ==>
                  && b'.envp == b.envp && b'.argv == b.argv[FirstNull(b.argv, 0) := Str(key)]
                  && (b'.panic == NoPanic <==> b.argv[max + 1].Null? && FirstNull(b.argv, 0) <= max))
  {
    var o := Unknown(key, value, sysctlAlias, setup);
    if ForInit(o) && b.panic == NoPanic && value.Some? {
      EnvStepSound(max, b, key, value.value);
      VisibleAt(b.envp, 0);
      var k := Find(Visible(b.envp, 0), key, 0);
      assert k < |b.envp| ==> EnvStep(max, b, key, value.value).envp[k] == Str(key + "=" + value.value);
    }
  }

  lemma {:induction false} RunKeepsSound(max: nat, b: Boot, opts: seq<Opt>)
    requires Sound(max, b)
    ensures Sound(max, RunOpts(max, b, opts))
  {
    if opts != [] {
      RunKeepsSound(max, b, opts[..|opts| - 1]);
      StepKeepsSound(max, RunOpts(max, b, opts[..|opts| - 1]), opts[|opts| - 1]);
    }
  }

  /** Unless a panic is due, the environment table is what setting the variables in order makes of it. */
  lemma {:induction false} RunSetsEnv(max: nat, b: Boot, opts: seq<Opt>)
    requires Sound(max, b) && RunOpts(max, b, opts).panic == NoPanic
    ensures Visible(RunOpts(max, b, opts).envp, 0) == PutEnvs(Visible(b.envp, 0), EnvOpts(opts))
  {
    if opts != [] {
      var n := |opts| - 1;
      var mid, o := RunOpts(max, b, opts[..n]), opts[n];
      RunKeepsSound(max, b, opts[..n]);
      StepKeepsSound(max, mid, o);
      RunSetsEnv(max, b, opts[..n]);
      EnvGrows(max, mid, o, Visible(b.envp, 0), EnvOpts(opts[..n]));
    }
  }

  lemma EnvGrows(max: nat, b: Boot, o: Opt, es: seq<string>, sets: seq<(string, string)>)
    requires Sound(max, b) && b.panic == NoPanic && Step(max, b, o).panic == NoPanic && Visible(b.envp, 0) == PutEnvs(es, sets)
    ensures Visible(Step(max, b, o).envp, 0)
         == PutEnvs(es, sets + if ForInit(o) && o.value.Some? then [(o.key, o.value.value)] else [])
  {
    if ForInit(o) && o.value.Some? {
      EnvStepSound(max, b, o.key, o.value.value);
      assert (sets + [(o.key, o.value.value)])[..|sets|] == sets;
    } else {
      assert sets + [] == sets;
    }
  }

  /** Unless a panic is due, and with no init= among the options, the arguments are all there, in order. */
  lemma {:induction false} RunSetsArgs(max: nat, b: Boot, opts: seq<Opt>)
    requires Sound(max, b) && RunOpts(max, b, opts).panic == NoPanic
    requires NoneClears(opts) && forall i :: FirstNull(b.argv, 0) <= i < |b.argv| ==> b.argv[i].Null?
    ensures var argv := RunOpts(max, b, opts).argv;
            && Visible(argv, 0) == Visible(b.argv, 0) + ArgOpts(opts)
            && forall i :: FirstNull(argv, 0) <= i < |argv| ==> argv[i].Null?
  {
    if opts == [] {
      assert Visible(b.argv, 0) + [] == Visible(b.argv, 0);
    } else {
      var n := |opts| - 1;
      var mid, o := RunOpts(max, b, opts[..n]), opts[n];
      RunKeepsSound(max, b, opts[..n]);
      StepKeepsSound(max, mid, o);
      RunSetsArgs(max, b, opts[..n]);
      ArgsGrow(max, mid, o);
    }
  }

  lemma ArgsGrow(max: nat, b: Boot, o: Opt)
    requires Sound(max, b) && b.panic == NoPanic && Step(max, b, o).panic == NoPanic && !ClearsArgs(o)
    requires forall i :: FirstNull(b.argv, 0) <= i < |b.argv| ==> b.argv[i].Null?
    ensures var argv := Step(max, b, o).argv;
            && Visible(argv, 0) == Visible(b.argv, 0) + (if o.AfterDashes? then [o.param] else if ForInit(o) && o.value.None? then [o.key] else [])
            && forall i :: FirstNull(argv, 0) <= i < |argv| ==> argv[i].Null?
  {
    if o.AfterDashes? || (ForInit(o) && o.value.None?) {
      var param, k := if o.AfterDashes? then o.param else o.key, FirstNull(b.argv, 0);
      Appended(b.argv, param);
      FirstNullIs(b.argv[k := Str(param)], 0, k + 1);
    } else {
      assert Visible(b.argv, 0) + [] == Visible(b.argv, 0);
    }
  }

  /** What a run makes of the tables at boot. */
  ghost predicate Described(max: nat, opts: seq<Opt>, r: Boot) {
    && Sound(max, r)
    && (r.panic == NoPanic ==>
          && EnvDescribed(max, opts, Visible(r.envp, 0))
          && (NoneClears(opts) ==> Visible(r.argv, 0) == ["init"] + ArgOpts(opts)))
  }

  ghost predicate EnvDescribed(max: nat, opts: seq<Opt>, es: seq<string>) {
    ProperEnv(es) && EnvMap(es) == Updates(EnvMap(DEFAULT_ENV), EnvOpts(opts)) && |EnvMap(es)| == |es| <= max + 1
  }

  /** The tables at boot, as far as runs depend on them. */
  ghost predicate AtBoot(max: nat, b: Boot) {
    && Sound(max, b) && Visible(b.envp, 0) == DEFAULT_ENV && Visible(b.argv, 0) == ["init"]
    && forall i :: FirstNull(b.argv, 0) <= i < |b.argv| ==> b.argv[i].Null?
  }

  lemma RunEnv(max: nat, b: Boot, opts: seq<Opt>)
    requires AtBoot(max, b) && GoodOpts(opts) && RunOpts(max, b, opts).panic == NoPanic
    ensures EnvDescribed(max, opts, Visible(RunOpts(max, b, opts).envp, 0))
  {
    RunKeepsSound(max, b, opts);
    RunSetsEnv(max, b, opts);
    EnvOptsGood(opts);
    DefaultsProper();
    EnvironmentIsMap(DEFAULT_ENV, EnvOpts(opts));
    VisibleAt(RunOpts(max, b, opts).envp, 0);
  }

  lemma RunFrom(max: nat, b: Boot, opts: seq<Opt>)
    requires AtBoot(max, b) && GoodOpts(opts)
    ensures Described(max, opts, RunOpts(max, b, opts))
  {
    RunKeepsSound(max, b, opts);
    if RunOpts(max, b, opts).panic == NoPanic {
      RunEnv(max, b, opts);
      if NoneClears(opts) {
        RunSetsArgs(max, b, opts);
      }
    }
  }

  /**
   Every sequence of options, from the initial tables on: the tables stay well formed, and unless a panic is due the
   environment is the map that the options describe, one entry per key and within the table, and without init= the
   arguments are all there in order.
   */
  lemma OptionsRun(max: nat, opts: seq<Opt>)
    requires 1 <= max && GoodOpts(opts)
    ensures Described(max, opts, RunOpts(max, Initial(max), opts))
  {
    InitialSound(max);
    RunFrom(max, Initial(max), opts);
  }

  lemma {:induction false} EnvOptsGood(opts: seq<Opt>)
    requires GoodOpts(opts)
    ensures forall i :: 0 <= i < |EnvOpts(opts)| ==> GoodKey(EnvOpts(opts)[i].0)
  {
    if opts != [] {
      EnvOptsGood(opts[..|opts| - 1]);
    }
  }

  /**
   A panic becomes due exactly when init already has MAX arguments and another one comes, or when the environment is
   full and a key comes that is new, or that holds the last usable slot.
   */
  lemma PanicExactly(max: nat, b: Boot, o: Opt)
    requires Sound(max, b) && b.panic == NoPanic && ProperEnv(Visible(b.envp, 0))
    requires o.Unknown? && o.value.Some? ==> GoodKey(o.key)
    ensures var es := Visible(b.envp, 0);
            Step(max, b, o).panic != NoPanic <==>
            || ((o.AfterDashes? || (ForInit(o) && o.value.None?)) && |Visible(b.argv, 0)| == max + 1)
            || (ForInit(o) && o.value.Some? && |es| == max + 1 && (o.key !in EnvMap(es) || o.key == KeyOf(es[max])))
  {
    VisibleAt(b.argv, 0);
    VisibleAt(b.envp, 0);
    var es := Visible(b.envp, 0);
    if ForInit(o) && o.value.Some? && |es| == max + 1 {
      FoundExactly(es, o.key);
    }
  }

  /** Where the search ends: at the entry with the key, or behind all entries if the map does not have it. */
  lemma FoundExactly(es: seq<string>, key: string)
    requires ProperEnv(es) && GoodKey(key)
    ensures var n := Find(es, key, 0);
            && (n < |es| <==> key in EnvMap(es))
            && (forall i :: 0 <= i < |es| ==> (KeyOf(es[i]) == key <==> i == n))
  {
    var n := Find(es, key, 0);
    forall i | 0 <= i < |es|
      ensures KeyOf(es[i]) == key <==> i == n
    {
      MatchesIsKey(key, es[i]);
      if n < |es| {
        MatchesIsKey(key, es[n]);
      }
    }
    if n < |es| {
      EnvMapHas(es, n);
    }
    EnvMapKeys(es, key);
  }

  // ---------------------------------------------------------------------------------------------
  // "init=" is meant to forget earlier arguments

  lemma {:induction false} RunSplits(max: nat, b: Boot, xs: seq<Opt>, ys: seq<Opt>)
    ensures RunOpts(max, b, xs + ys) == RunOpts(max, RunOpts(max, b, xs), ys)
  {
    if ys == [] {
      assert xs + ys == xs;
    } else {
      var front, o := ys[..|ys| - 1], ys[|ys| - 1];
      assert xs + ys == (xs + front) + [o] && ys == front + [o];
      RunSplits(max, b, xs, front);
      RunOne(max, b, xs + front, o);
      RunOne(max, RunOpts(max, b, xs), front, o);
    }
  }

  lemma {:induction false} PanicStays(max: nat, b: Boot, opts: seq<Opt>)
    requires Sound(max, b) && RunOpts(max, b, opts).panic == NoPanic
    ensures b.panic == NoPanic
  {
    if opts != [] {
      var front := opts[..|opts| - 1];
      RunKeepsSound(max, b, front);
      StepKeepsSound(max, RunOpts(max, b, front), opts[|opts| - 1]);
      PanicStays(max, b, front);
    }
  }

  /** What init_setup leaves: slot 0, the slots from MAX on, and nothing between. */
  ghost predicate Forgotten(t: seq<Slot>, max: nat) {
    1 <= max && |t| == max + 2 && t[0].Str? && (forall i :: 1 <= i < max ==> t[i].Null?) && t[max + 1].Null?
  }

  /** The arguments `ss` in the slots from 1 on, the rest as before. */
  ghost predicate Filled(t: seq<Slot>, max: nat, ss: seq<string>, t': seq<Slot>) {
    && |t'| == |t| == max + 2 && |ss| <= (if t[max].Null? then max else max - 1)
    && forall k :: 0 <= k < |t| ==> t'[k] == if 1 <= k <= |ss| then Str(ss[k - 1]) else t[k]
  }

  lemma FilledMore(t: seq<Slot>, max: nat, ss: seq<string>, t': seq<Slot>, s: string)
    requires Forgotten(t, max) && Filled(t, max, ss, t')
    ensures var n := FirstNull(t', 0); n + 1 < |t'| ==> Filled(t, max, ss + [s], t'[n := Str(s)])
  {
    var m := |ss|;
    if m == (if t[max].Null? then max else max - 1) {
      FirstNullIs(t', 0, max + 1);
    } else {
      assert t'[m + 1] == t[m + 1];
      FirstNullIs(t', 0, m + 1);
    }
  }

  /** As long as no panic is due, arguments after init= fill the slots from 1 on. */
  lemma {:induction false} RunFills(max: nat, b: Boot, opts: seq<Opt>)
    requires Sound(max, b) && Forgotten(b.argv, max) && NoneClears(opts) && RunOpts(max, b, opts).panic == NoPanic
    ensures Filled(b.argv, max, ArgOpts(opts), RunOpts(max, b, opts).argv)
  {
    if opts != [] {
      var n := |opts| - 1;
      var mid, o := RunOpts(max, b, opts[..n]), opts[n];
      RunKeepsSound(max, b, opts[..n]);
      StepKeepsSound(max, mid, o);
      RunFills(max, b, opts[..n]);
      if o.AfterDashes? || (ForInit(o) && o.value.None?) {
        FilledMore(b.argv, max, ArgOpts(opts[..n]), mid.argv, if o.AfterDashes? then o.param else o.key);
      } else {
        assert ArgOpts(opts) == ArgOpts(opts[..n]);
      }
    }
  }

  lemma SeenAfterFill(t: seq<Slot>, max: nat, ss: seq<string>, t': seq<Slot>)
    requires Forgotten(t, max) && Filled(t, max, ss, t')
    ensures Visible(t', 1) == ss <==> t[max].Null? || |ss| < max - 1
  {
    if t[max].Null? || |ss| < max - 1 {
      VisibleIs(t', 1, ss);
    } else {
      var seen := ss + [t[max].s];
      VisibleIs(t', 1, seen);
      assert |seen| != |ss|;
    }
  }

  /** The options that follow the last one that clears. */
  function Stretch(opts: seq<Opt>): seq<Opt> {
    if opts == [] || ClearsArgs(opts[|opts| - 1]) then []
    else Stretch(opts[..|opts| - 1]) + [opts[|opts| - 1]]
  }

  /** At some point the options since the last clearing one give `max` arguments. */
  predicate LastSlotUsed(max: nat, opts: seq<Opt>) {
    |ArgOpts(Stretch(opts))| == max || (opts != [] && LastSlotUsed(max, opts[..|opts| - 1]))
  }

  lemma ArgOptsMore(opts: seq<Opt>, o: Opt)
    ensures ArgOpts(opts + [o]) == ArgOpts(opts)
      + if o.AfterDashes? then [o.param] else if ForInit(o) && o.value.None? then [o.key] else []
  {
    assert (opts + [o])[..|opts|] == opts;
  }

  /** The shape of the table on one more step: cleared up to slot MAX, or the same with one more argument. */
  lemma ShapeStep(max: nat, b: Boot, t: seq<Slot>, ss: seq<string>, o: Opt)
    requires Sound(max, b) && Forgotten(t, max) && Filled(t, max, ss, b.argv)
    requires b.panic == NoPanic && Step(max, b, o).panic == NoPanic
    ensures var argv := Step(max, b, o).argv;
            if ClearsArgs(o) then Forgotten(argv, max) && argv[max] == b.argv[max]
            else Filled(t, max, ss + if o.AfterDashes? then [o.param] else if ForInit(o) && o.value.None? then [o.key] else [], argv)
  {
    if o.AfterDashes? || (ForInit(o) && o.value.None?) {
      FilledMore(t, max, ss, b.argv, if o.AfterDashes? then o.param else o.key);
    } else if !ClearsArgs(o) {
      assert ss + [] == ss;
    }
  }

  /** The arguments of the last stretch in their slots; the last slot in use if a stretch ever reached it. */
  ghost predicate Shaped(max: nat, opts: seq<Opt>, t: seq<Slot>, argv: seq<Slot>) {
    && Forgotten(t, max) && Filled(t, max, ArgOpts(Stretch(opts)), argv)
    && (argv[max].Str? <==> LastSlotUsed(max, opts))
  }

  lemma ShapedMore(max: nat, opts: seq<Opt>, o: Opt, t: seq<Slot>, b: Boot) returns (t': seq<Slot>)
    requires Sound(max, b) && Shaped(max, opts, t, b.argv) && b.panic == NoPanic && Step(max, b, o).panic == NoPanic
    ensures Shaped(max, opts + [o], t', Step(max, b, o).argv)
  {
    assert (opts + [o])[..|opts|] == opts;
    ShapeStep(max, b, t, ArgOpts(Stretch(opts)), o);
    if ClearsArgs(o) {
      t' := Step(max, b, o).argv;
      assert ArgOpts(Stretch(opts + [o])) == [];
    } else {
      t' := t;
      assert Stretch(opts + [o]) == Stretch(opts) + [o];
      ArgOptsMore(Stretch(opts), o);
    }
  }

  /** On every run without a panic: `t` is what the last clearing option left. */
  lemma {:induction false} RunShape(max: nat, opts: seq<Opt>) returns (t: seq<Slot>)
    requires 1 <= max && RunOpts(max, Initial(max), opts).panic == NoPanic
    ensures Shaped(max, opts, t, RunOpts(max, Initial(max), opts).argv)
  {
    var b0 := Initial(max);
    InitialSound(max);
    if opts == [] {
      t := b0.argv;
    } else {
      var front, o := opts[..|opts| - 1], opts[|opts| - 1];
      assert opts == front + [o];
      RunKeepsSound(max, b0, front);
      StepKeepsSound(max, RunOpts(max, b0, front), o);
      t := RunShape(max, front);
      t := ShapedMore(max, front, o, t, RunOpts(max, b0, front));
    }
  }

  /**
   With no panic due, init sees just the arguments after the last init= if and only if no stretch of options before it has
   MAX arguments, or fewer than MAX - 1 come after it.
   */
  lemma OnlyLaterArgsVisible(max: nat, before: seq<Opt>, o: Opt, after: seq<Opt>)
    requires 1 <= max && ClearsArgs(o) && NoneClears(after)
    requires RunOpts(max, Initial(max), before + [o] + after).panic == NoPanic
    ensures Visible(RunOpts(max, Initial(max), before + [o] + after).argv, 1) == ArgOpts(after)
            <==> !LastSlotUsed(max, before) || |ArgOpts(after)| < max - 1
  {
    var b0 := Initial(max);
    var b1 := RunOpts(max, b0, before);
    var b2 := Step(max, b1, o);
    InitialSound(max);
    RunKeepsSound(max, b0, before);
    StepKeepsSound(max, b1, o);
    RunSplits(max, b0, before + [o], after);
    RunOne(max, b0, before, o);
    PanicStays(max, b2, after);
    var t := RunShape(max, before);
    ShapeStep(max, b1, t, ArgOpts(Stretch(before)), o);
    RunFills(max, b2, after);
    SeenAfterFill(b2.argv, max, ArgOpts(after), RunOpts(max, b2, after).argv);
  }

  /** A run that fails: with room for two arguments, a second argument given before init= comes back after one later one. */
  lemma OldArgReappears(a1: string, a2: string, n: string, init: Opt)
    requires ClearsArgs(init)
    ensures var r := RunOpts(2, Initial(2), [AfterDashes(a1), AfterDashes(a2)] + [init] + [AfterDashes(n)]);
            r.panic == NoPanic && Visible(r.argv, 1) == [n, a2]
  {
    var b0 := Initial(2);
    var b1 := Step(2, b0, AfterDashes(a1));
    FirstNullIs(b0.argv, 0, 1);
    assert b1.argv == [Str("init"), Str(a1), Null, Null];
    var b2 := Step(2, b1, AfterDashes(a2));
    FirstNullIs(b1.argv, 0, 2);
    assert b2.argv == [Str("init"), Str(a1), Str(a2), Null];
    var b3 := Step(2, b2, init);
    assert b3.argv == [Str("init"), Null, Str(a2), Null];
    var b4 := Step(2, b3, AfterDashes(n));
    FirstNullIs(b3.argv, 0, 1);
    assert b4.argv == [Str("init"), Str(n), Str(a2), Null];
    VisibleIs(b4.argv, 1, [n, a2]);
    RunOne(2, b0, [], AfterDashes(a1));
    RunOne(2, b0, [AfterDashes(a1)], AfterDashes(a2));
    RunOne(2, b0, [AfterDashes(a1), AfterDashes(a2)], init);
    RunOne(2, b0, [AfterDashes(a1), AfterDashes(a2)] + [init], AfterDashes(n));
    assert [AfterDashes(a1)] + [AfterDashes(a2)] == [AfterDashes(a1), AfterDashes(a2)];
  }

  lemma RunOne(max: nat, b: Boot, opts: seq<Opt>, o: Opt)
    ensures RunOpts(max, b, opts + [o]) == Step(max, RunOpts(max, b, opts), o)
  {
    assert (opts + [o])[..|opts|] == opts;
  }

  // ---------------------------------------------------------------------------------------------
  // repair_env_string

  /** The C string `str` starts at `at`. */
  ghost predicate HasCString(b: seq<char>, at: nat, str: string) {
    at + |str| < |b| && b[at..at + |str|] == str && b[at + |str|] == '\0' && '\0' !in str
  }

  method StrLen(buf: array<char>, at: nat, ghost str: string) returns (n: nat)
    requires HasCString(buf[..], at, str)
    ensures n == |str|
  {
    n := 0;
    while buf[at + n] != '\0'
      invariant n <= |str|
      decreases |str| - n
    {
      assert buf[..][at..at + |str|][n] == buf[at + n];
      n := n + 1;
    }
  }

  lemma CStringChars(b: seq<char>, at: nat, str: string)
    requires HasCString(b, at, str)
    ensures forall j :: 0 <= j < |str| ==> b[at + j] == str[j]
  {
    forall j | 0 <= j < |str|
      ensures b[at + j] == str[j]
    {
      assert b[at..at + |str|][j] == b[at + j];
    }
  }

  /** memmove(buf + at - 1, buf + at, n) */
  method MoveBack(buf: array<char>, at: nat, n: nat)
    requires 1 <= at && at + n <= buf.Length
    modifies buf
    ensures forall k :: 0 <= k < at - 1 || at - 1 + n <= k < buf.Length ==> buf[k] == old(buf[k])
    ensures forall k :: at - 1 <= k < at - 1 + n ==> buf[k] == old(buf[k + 1])
  {
    var i := 0;
    while i < n
      invariant 0 <= i <= n
      invariant forall k :: 0 <= k < at - 1 || at - 1 + i <= k < buf.Length ==> buf[k] == old(buf[k])
      invariant forall k :: at - 1 <= k < at - 1 + i ==> buf[k] == old(buf[k + 1])
    {
      buf[at - 1 + i] := buf[at + i];
      i := i + 1;
    }
  }

  lemma Joined(b: seq<char>, at: nat, key: string, value: string)
    requires var v := at + |key| + 1;
             && v + |value| < |b| && b[v - 1] == '=' && b[v + |value|] == '\0' && '\0' !in key && '\0' !in value
             && (forall j :: 0 <= j < |key| ==> b[at + j] == key[j])
             && (forall j :: 0 <= j < |value| ==> b[v + j] == value[j])
    ensures HasCString(b, at, key + "=" + value)
  {
    var n := at + |key|;
    assert b[at..n] == key && b[n + 1..n + 1 + |value|] == value;
    assert b[at..n + 1 + |value|] == b[at..n] + [b[n]] + b[n + 1..n + 1 + |value|];
  }

  /**
   Puts back the '=' that parsing replaced, whether or not the value was quoted, so that the parameter becomes
   the whole string. A value anywhere else is a bug in the parser.
   */
  method RepairEnvString(buf: array<char>, param: nat, val: Option<nat>, ghost key: string, ghost value: string) returns (bug: bool)
    requires HasCString(buf[..], param, key) && (val.Some? ==> HasCString(buf[..], val.value, value))
    modifies buf
    ensures bug <==> val.Some? && val.value !in {param + |key| + 1, param + |key| + 2}
    ensures val.Some? && !bug ==> HasCString(buf[..], param, key + "=" + value)
    ensures val.None? || bug ==> buf[..] == old(buf[..])
    ensures forall i :: 0 <= i < buf.Length && (i < param || (val.Some? && val.value + |value| < i)) ==> buf[i] == old(buf[i])
  {
    bug := false;
    if val.Some? {
      var v := val.value;
      var n := StrLen(buf, param, key);
      var m := StrLen(buf, v, value);
      ghost var was := buf[..];
      CStringChars(was, param, key);
      CStringChars(was, v, value);
      if v == param + n + 1 {
        buf[v - 1] := '=';
        Joined(buf[..], param, key, value);
      } else if v == param + n + 2 {
        buf[v - 2] := '=';
        MoveBack(buf, v, m + 1);
        forall j | 0 <= j < |value|
          ensures buf[v - 1 + j] == value[j]
        {
          assert was[v + j] == value[j];
        }
        Joined(buf[..], param, key, value);
      } else {
        bug := true;
      }
    }
  }
}
