/** Names of staged entries: `{prefix}{pid:x}-{timestamp:x}-{sequence:x}{suffix}`. */
module StagedNames {
  import opened Filesystem
  import opened Primitives

  function Hex(n: nat): (s: string)
    ensures |s| > 0 && '-' !in s
  {
    if n < 16 then [HexDigit(n)] else Hex(n / 16) + [HexDigit(n % 16)]
  }

  lemma {:induction false} HexInjective(a: nat, b: nat)
    requires Hex(a) == Hex(b)
    ensures a == b
  {
    var s, t := Hex(a), Hex(b);
    assert s[|s|-1] == HexDigit(a % 16) && t[|t|-1] == HexDigit(b % 16);
    HexDigitInjective(a % 16, b % 16);
    assert a >= 16 ==> s[..|s|-1] == Hex(a / 16);
    assert b >= 16 ==> t[..|t|-1] == Hex(b / 16);
    assert (a >= 16 <==> |s| > 1) && (b >= 16 <==> |t| > 1);
    if a >= 16 {
      HexInjective(a / 16, b / 16);
    }
  }

  function EntryName(prefix: string, pid: nat, nanos: nat, sequence: nat, suffix: string): (n: Name)
    ensures |n| > |prefix| + |suffix|
  {
    prefix + Hex(pid) + "-" + Hex(nanos) + "-" + Hex(sequence) + suffix
  }

  /** Equal texts that end in `-`, then a dash-free tail, have equal tails. */
  lemma {:induction false} TailsAgree(x: string, a: string, y: string, b: string)
    requires x + "-" + a == y + "-" + b
    requires '-' !in a && '-' !in b
    ensures a == b
  {
    var s, t := x + "-" + a, y + "-" + b;
    assert a == "" ==> s[|s|-1] == '-';
    assert b == "" ==> t[|t|-1] == '-';
    assert a != "" ==> s[|s|-1] == a[|a|-1] && s[..|s|-1] == x + "-" + a[..|a|-1];
    assert b != "" ==> t[|t|-1] == b[|b|-1] && t[..|t|-1] == y + "-" + b[..|b|-1];
    if a != "" && b != "" {
      TailsAgree(x, a[..|a|-1], y, b[..|b|-1]);
    }
  }

  /** The process-wide counter alone keeps two generated names apart, whatever the prefixes,
      process ids and clock readings are. */
  lemma GeneratedNamesDiffer(p: string, pid: nat, t: nat, k: nat, q: string, pid': nat, t': nat, k': nat,
      suffix: string)
    requires k != k' && '-' !in suffix
    ensures EntryName(p, pid, t, k, suffix) != EntryName(q, pid', t', k', suffix)
  {
    var x, y := p + Hex(pid) + "-" + Hex(t), q + Hex(pid') + "-" + Hex(t');
    if EntryName(p, pid, t, k, suffix) == EntryName(q, pid', t', k', suffix) {
      assert EntryName(p, pid, t, k, suffix) == x + "-" + (Hex(k) + suffix);
      assert EntryName(q, pid', t', k', suffix) == y + "-" + (Hex(k') + suffix);
      TailsAgree(x, Hex(k) + suffix, y, Hex(k') + suffix);
      assert Hex(k) == (Hex(k) + suffix)[..|Hex(k)|] && Hex(k') == (Hex(k') + suffix)[..|Hex(k')|];
      HexInjective(k, k');
    }
  }

  /** Under one prefix and suffix, a generated name tells the process id, the clock reading and the
      counter it was made from. */
  lemma EntryNameInjective(p: string, pid: nat, t: nat, k: nat, pid': nat, t': nat, k': nat, suffix: string)
    requires '-' !in suffix && EntryName(p, pid, t, k, suffix) == EntryName(p, pid', t', k', suffix)
    ensures pid == pid' && t == t' && k == k'
  {
    if k != k' {
      GeneratedNamesDiffer(p, pid, t, k, p, pid', t', k', suffix);
    } else {
      var x, y := p + Hex(pid) + "-" + Hex(t), p + Hex(pid') + "-" + Hex(t');
      var tail := "-" + Hex(k) + suffix;
      assert EntryName(p, pid, t, k, suffix) == x + tail && EntryName(p, pid', t', k', suffix) == y + tail;
      assert x == (x + tail)[..|x + tail| - |tail|] && y == (y + tail)[..|y + tail| - |tail|];
      TailsAgree(p + Hex(pid), Hex(t), p + Hex(pid'), Hex(t'));
      HexInjective(t, t');
      assert p + Hex(pid) == x[..|x| - |"-" + Hex(t)|] && p + Hex(pid') == y[..|y| - |"-" + Hex(t')|];
      assert Hex(pid) == (p + Hex(pid))[|p|..] && Hex(pid') == (p + Hex(pid'))[|p|..];
      HexInjective(pid, pid');
    }
  }

  /** A name generated for a destination is never the destination's own name. */
  lemma GeneratedNameIsNotDestination(file: Name, tag: string, pid: nat, nanos: nat, sequence: nat, suffix: string)
    ensures EntryName("." + file + tag, pid, nanos, sequence, suffix) != file
  {
  }

  /** `STAGED_ENTRY_COUNTER` together with the clock and the process id. */
  class NameSource {
    var sequence: nat
    const pid: nat
    const nanos: nat -> nat

    constructor (pid: nat, nanos: nat -> nat)
      ensures sequence == 0
    {
      sequence := 0;
      this.pid, this.nanos := pid, nanos;
    }

    function NameAt(prefix: string, suffix: string, k: nat): Name {
      EntryName(prefix, pid, nanos(k), k, suffix)
    }

    method Next(prefix: string, suffix: string) returns (n: Name)
      modifies this
      ensures sequence == old(sequence) + 1
      ensures n == NameAt(prefix, suffix, old(sequence))
    {
      n := NameAt(prefix, suffix, sequence);
      sequence := sequence + 1;
    }
  }
}
