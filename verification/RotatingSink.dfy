/** spdlog's rotating file sink, which Ham's logger writes to: a base file and
    numbered older files, shifted up by one when the base file is full. A file
    holds the messages written to it; the directory is a map from names. */
module RotatingSink {
  type Text = string

  datatype Option<T> = None | Some(value: T)

  function Decimal(n: nat): (r: Text)
    ensures r != []
  {
    if n < 10 then [(48 + n) as char] else Decimal(n / 10) + [(48 + n % 10) as char]
  }

  lemma {:induction false} DecimalInjective(a: nat, b: nat)
    requires Decimal(a) == Decimal(b)
    ensures a == b
  {
    var s := Decimal(a);
    assert s[|s| - 1] == (48 + a % 10) as char && s[|s| - 1] == (48 + b % 10) as char;
    if a >= 10 && b >= 10 {
      assert s[..|s| - 1] == Decimal(a / 10) && s[..|s| - 1] == Decimal(b / 10);
      DecimalInjective(a / 10, b / 10);
    }
  }

  /** The last position of a character of `set` in s[..n], if any. */
  function LastOf(s: Text, chars: set<char>, n: nat): (r: Option<nat>)
    requires n <= |s|
    ensures r.Some? ==> r.value < n && s[r.value] in chars
    ensures forall j :: (if r.Some? then r.value + 1 else 0) <= j < n ==> s[j] !in chars
  {
    if n == 0 then None else if s[n - 1] in chars then Some(n - 1) else LastOf(s, chars, n - 1)
  }

  /** The path without its extension, and the extension; a leading dot of the file
      name does not start one. */
  function SplitByExtension(name: Text): (r: (Text, Text))
    ensures r.0 + r.1 == name
  {
    var ext := LastOf(name, {'.'}, |name|);
    if ext.None? || ext.value == 0 || ext.value == |name| - 1 then (name, [])
    else
      var folder := LastOf(name, {'/'}, |name|);
      if folder.Some? && folder.value >= ext.value - 1 then (name, [])
      else (name[..ext.value], name[ext.value..])
  }

  function CalcFilename(name: Text, index: nat): Text {
    if index == 0 then name
    else var (base, ext) := SplitByExtension(name); base + ['.'] + Decimal(index) + ext
  }

  function DecimalValue(s: Text): int {
    if s == [] then 0 else 10 * DecimalValue(s[..|s| - 1]) + (s[|s| - 1] as int - '0' as int)
  }

  /** The digits of a number denote it, without leading zeros. */
  lemma {:induction false} DecimalDenotes(n: nat)
    ensures DecimalValue(Decimal(n)) == n && forall i :: 0 <= i < |Decimal(n)| ==> '0' <= Decimal(n)[i] <= '9'
    ensures n > 0 ==> Decimal(n)[0] != '0'
  {
    var s := Decimal(n);
    if n < 10 {
      assert s[..0] == [];
    } else {
      DecimalDenotes(n / 10);
      assert s[..|s| - 1] == Decimal(n / 10) && s[0] == Decimal(n / 10)[0];
    }
  }

  /** A name that ends in a dot and an extension, with a nonempty file name before the dot. */
  predicate HasExtension(base: Text, ext: Text) {
    base != [] && base[|base| - 1] != '/' && ext != [] && '.' !in ext && '/' !in ext
  }

  /** The index goes before the extension: logs/mylog.txt becomes logs/mylog.3.txt. */
  lemma IndexBeforeExtension(base: Text, ext: Text, index: nat)
    requires HasExtension(base, ext) && index > 0
    ensures CalcFilename(base + ['.'] + ext, index) == base + ['.'] + Decimal(index) + ['.'] + ext
  {
    SplitAtExtension(base, ext);
    assert base + ['.'] + Decimal(index) + (['.'] + ext) == base + ['.'] + Decimal(index) + ['.'] + ext;
  }

  lemma SplitAtExtension(base: Text, ext: Text)
    requires HasExtension(base, ext)
    ensures SplitByExtension(base + ['.'] + ext) == (base, ['.'] + ext)
  {
    var name, p := base + ['.'] + ext, |base|;
    assert forall j :: p < j < |name| ==> name[j] == ext[j - p - 1] && name[j] in ext;
    var dot, folder := LastOf(name, {'.'}, |name|), LastOf(name, {'/'}, |name|);
    assert name[p] == '.' && dot == Some(p);
    assert name[p - 1] == base[p - 1];
    assert name[..p] == base && name[p..] == ['.'] + ext;
  }

  /** And to the end of a name without one. */
  lemma IndexAtEnd(name: Text, index: nat)
    requires index > 0 && forall base, ext :: HasExtension(base, ext) ==> name != base + ['.'] + ext
    ensures CalcFilename(name, index) == name + ['.'] + Decimal(index)
  {
    var (base, ext) := SplitByExtension(name);
    if ext != [] {
      SplitHasExtension(name);
      Rejoined(base, ext);
    }
    assert base + ['.'] + Decimal(index) + [] == base + ['.'] + Decimal(index);
  }

  lemma Rejoined(base: Text, ext: Text)
    requires ext != [] && ext[0] == '.'
    ensures base + ext == base + ['.'] + ext[1..]
  {}

  lemma SplitHasExtension(name: Text)
    requires SplitByExtension(name).1 != []
    ensures var (base, ext) := SplitByExtension(name); ext[0] == '.' && HasExtension(base, ext[1..])
  {
    var (base, ext) := SplitByExtension(name);
    var p := |base|;
    assert forall i :: 0 <= i < |ext| - 1 ==> ext[1..][i] == name[p + 1 + i];
  }

  /** Different indices give different file names. */
  lemma CalcFilenameInjective(name: Text, i: nat, j: nat)
    requires CalcFilename(name, i) == CalcFilename(name, j)
    ensures i == j
  {
    var (base, ext) := SplitByExtension(name);
    if i > 0 && j > 0 {
      var s, t := CalcFilename(name, i), CalcFilename(name, j);
      assert s[|base| + 1..|s| - |ext|] == Decimal(i) && t[|base| + 1..|t| - |ext|] == Decimal(j);
      DecimalInjective(i, j);
    }
  }

  /** The directory: file names to the messages in them. */
  type Files = map<Text, seq<Text>>

  /** The sink's own files, by index. */
  type Log = imap<nat, seq<Text>>

  ghost function View(files: Files, base: Text): Log {
    imap i: nat | CalcFilename(base, i) in files :: files[CalcFilename(base, i)]
  }

  ghost predicate Unrelated(name: Text, base: Text) { forall i: nat :: CalcFilename(base, i) != name }

  ghost predicate SameOthers(a: Files, b: Files, base: Text) {
    forall name :: Unrelated(name, base) ==>
      (name in a <==> name in b) && (name in a && name in b ==> a[name] == b[name])
  }

  lemma OthersSame(a: Files, b: Files, c: Files, base: Text)
    requires SameOthers(a, b, base) && SameOthers(b, c, base)
    ensures SameOthers(a, c, base)
  {
  }

  lemma NamesDiffer(base: Text, i: nat)
    ensures forall j: nat :: CalcFilename(base, i) == CalcFilename(base, j) ==> i == j
  {
    forall j: nat | CalcFilename(base, i) == CalcFilename(base, j) ensures i == j {
      CalcFilenameInjective(base, i, j);
    }
  }

  lemma ViewRemove(files: Files, base: Text, i: nat)
    ensures View(files - {CalcFilename(base, i)}, base) == View(files, base) - {i}
    ensures SameOthers(files, files - {CalcFilename(base, i)}, base)
  {
    NamesDiffer(base, i);
  }

  lemma ViewWrite(files: Files, base: Text, i: nat, msgs: seq<Text>)
    ensures View(files[CalcFilename(base, i) := msgs], base) == View(files, base)[i := msgs]
    ensures SameOthers(files, files[CalcFilename(base, i) := msgs], base)
  {
    NamesDiffer(base, i);
  }

  function Renamed(files: Files, src: Text, target: Text): Files
    requires src in files && src != target
  {
    (files - {target})[target := files[src]] - {src}
  }

  lemma ViewRename(files: Files, base: Text, i: nat)
    requires i > 0 && CalcFilename(base, i - 1) in files
    ensures CalcFilename(base, i - 1) != CalcFilename(base, i)
    ensures var after := Renamed(files, CalcFilename(base, i - 1), CalcFilename(base, i));
            View(after, base) == View(files, base)[i := View(files, base)[i - 1]] - {i - 1} &&
            SameOthers(files, after, base)
  {
    NamesDiffer(base, i);
    var src, target := CalcFilename(base, i - 1), CalcFilename(base, i);
    var f1 := files - {target};
    var f2 := f1[target := files[src]];
    ViewRemove(files, base, i);
    ViewWrite(f1, base, i, files[src]);
    ViewRemove(f2, base, i - 1);
  }

  function Size(msgs: seq<Text>): nat {
    if msgs == [] then 0 else Size(msgs[..|msgs| - 1]) + |msgs[|msgs| - 1]|
  }

  lemma SizeSnoc(msgs: seq<Text>, m: Text)
    ensures Size(msgs + [m]) == Size(msgs) + |m|
  {
    assert (msgs + [m])[..|msgs|] == msgs;
  }

  ghost predicate IsSuffix(s: seq<Text>, t: seq<Text>) { |s| <= |t| && t[|t| - |s|..] == s }

  ghost function Messages(log: Log, i: nat): seq<Text> { if i in log then log[i] else [] }

  /** All messages kept, from file n down to the base file. */
  ghost function Kept(log: Log, n: nat): seq<Text> {
    if n == 0 then Messages(log, 0) else Messages(log, n) + Kept(log, n - 1)
  }

  ghost predicate Bounded(log: Log, maxFiles: nat) { forall i :: i in log ==> i <= maxFiles }

  ghost predicate Gapless(log: Log) { forall i, j: nat :: i in log && j < i ==> j in log }

  ghost predicate Fits(msgs: seq<Text>, maxSize: nat) { Size(msgs) <= maxSize || |msgs| == 1 }

  /** The files are numbered without gaps up to maxFiles, read from the oldest to the
      base file they are a suffix of everything logged, and each is within the limit
      or holds a single message. */
  ghost predicate Orderly(log: Log, maxSize: nat, maxFiles: nat, logged: seq<Text>) {
    0 in log && Bounded(log, maxFiles) && IsSuffix(Kept(log, maxFiles), logged) &&
    Gapless(log) &&
    (forall i :: i in log ==> Fits(log[i], maxSize))
  }

  /** The files once those above index i hold what was one below; file i is filled next. */
  ghost function Shifting(before: Log, maxFiles: nat, i: nat): Log {
    imap k: nat | Source(before, maxFiles, i, k).Some? :: Source(before, maxFiles, i, k).value
  }

  /** Where file k comes from at that point. */
  ghost function Source(before: Log, maxFiles: nat, i: nat, k: nat): Option<seq<Text>> {
    if i < k <= maxFiles then (if k - 1 in before then Some(before[k - 1]) else None)
    else if (k < i || k == i == maxFiles) && k in before then Some(before[k])
    else None
  }

  lemma ShiftStart(before: Log, maxFiles: nat)
    requires Bounded(before, maxFiles)
    ensures Shifting(before, maxFiles, maxFiles) == before
  {
  }

  lemma ShiftStep(before: Log, maxFiles: nat, i: nat)
    requires 0 < i <= maxFiles
    requires i in before ==> i - 1 in before
    ensures var now, next := Shifting(before, maxFiles, i), Shifting(before, maxFiles, i - 1);
            next == if i - 1 in now then now[i := now[i - 1]] - {i - 1} else now
  {
    var now, next := Shifting(before, maxFiles, i), Shifting(before, maxFiles, i - 1);
    var moved := if i - 1 in now then now[i := now[i - 1]] - {i - 1} else now;
    assert next == moved;
  }

  lemma MovedBounded(log: Log, maxFiles: nat, i: nat)
    requires 0 < i <= maxFiles && Bounded(log, maxFiles)
    ensures Bounded(log - {i}, maxFiles)
    ensures i - 1 in log ==> Bounded(log[i := log[i - 1]] - {i - 1}, maxFiles)
  {
  }

  /** What a completed rotation does: every file moves up by one, the oldest is
      dropped, and the base file starts empty. */
  ghost function Shifted(before: Log, maxFiles: nat): Log {
    Shifting(before, maxFiles, 0)[0 := []]
  }

  /** Shifting keeps the order of all messages and loses only the oldest file. */
  lemma {:induction false} ShiftedKept(before: Log, maxFiles: nat, n: nat)
    requires n <= maxFiles
    ensures Kept(Shifted(before, maxFiles), n) == if n == 0 then [] else Kept(before, n - 1)
  {
    if n == 0 {
    } else {
      ShiftedKept(before, maxFiles, n - 1);
    }
  }

  lemma SuffixOfSuffix(a: seq<Text>, b: seq<Text>, c: seq<Text>)
    requires IsSuffix(a + b, c)
    ensures IsSuffix(b, c)
  {
    assert c[|c| - |b|..] == (a + b)[|a|..];
  }

  lemma SuffixSnoc(s: seq<Text>, t: seq<Text>, m: Text)
    requires IsSuffix(s, t)
    ensures IsSuffix(s + [m], t + [m])
  {
    assert (t + [m])[|t| - |s|..] == t[|t| - |s|..] + [m];
  }

  /** A rotation keeps the files in order. */
  lemma RotatedOrderly(before: Log, maxSize: nat, maxFiles: nat, logged: seq<Text>)
    requires Orderly(before, maxSize, maxFiles, logged)
    ensures Orderly(Shifted(before, maxFiles), maxSize, maxFiles, logged)
  {
    ShiftedKept(before, maxFiles, maxFiles);
    if maxFiles > 0 {
      SuffixOfSuffix(Messages(before, maxFiles), Kept(before, maxFiles - 1), logged);
    }
  }

  lemma {:induction false} KeptWrite(log: Log, msg: Text, n: nat)
    requires 0 in log
    ensures Kept(log[0 := log[0] + [msg]], n) == Kept(log, n) + [msg]
  {
    if n == 0 {
    } else {
      KeptWrite(log, msg, n - 1);
    }
  }

  /** Writing a message that fits, or writing to an empty base file, keeps the files in order. */
  lemma WrittenOrderly(log: Log, maxSize: nat, maxFiles: nat, logged: seq<Text>, msg: Text)
    requires Orderly(log, maxSize, maxFiles, logged)
    requires log[0] == [] || Size(log[0]) + |msg| <= maxSize
    ensures Orderly(log[0 := log[0] + [msg]], maxSize, maxFiles, logged + [msg])
  {
    KeptWrite(log, msg, maxFiles);
    SizeSnoc(log[0], msg);
    SuffixSnoc(Kept(log, maxFiles), logged, msg);
  }

  lemma {:induction false} KeptNothing(log: Log, n: nat)
    requires log == imap[0 := []]
    ensures Kept(log, n) == []
  {
    if n == 0 {
    } else {
      KeptNothing(log, n - 1);
    }
  }

  class RotatingFileSink {
    const base: Text
    const maxSize: nat
    const maxFiles: nat
    var files: Files
    var currentSize: nat
    /** Every message written so far. */
    ghost var logged: seq<Text>
    /** The sink started without files of its own; and every rename has succeeded since. */
    ghost const clean: bool
    ghost var healthy: bool

    ghost function Files(): Log
      reads this
    {
      View(files, base)
    }

    /** What holds of the files, whatever currentSize is. */
    ghost predicate Stored()
      reads this
    {
      base in files && (clean ==> Bounded(Files(), maxFiles)) &&
      (healthy ==> clean && Orderly(Files(), maxSize, maxFiles, logged))
    }

    ghost predicate Valid()
      reads this
    {
      Stored() && currentSize == Size(files[base])
    }

    constructor (name: Text, size: nat, count: nat, directory: Files)
      ensures Valid() && logged == []
      ensures healthy == clean == (View(directory, name) == imap[])
      ensures files == if name in directory then directory else directory[name := []]
      ensures base == name && maxSize == size && maxFiles == count
    {
      base, maxSize, maxFiles := name, size, count;
      files := if name in directory then directory else directory[name := []];
      currentSize := if name in directory then Size(directory[name]) else 0;
      clean := View(directory, name) == imap[];
      logged, healthy := [], View(directory, name) == imap[];
      new;
      assert CalcFilename(name, 0) == name;
      if healthy {
        assert 0 in View(directory, name) <==> name in directory;
        ViewWrite(directory, name, 0, []);
        assert Files() == imap[0 := []];
        KeptNothing(Files(), maxFiles);
      }
    }

    /** Deletes the target, then renames; a failed rename has still deleted it. */
    method RenameFile(src: Text, target: Text, succeeds: bool) returns (ok: bool)
      requires src in files && src != target
      modifies this`files
      ensures ok == succeeds
      ensures files == if ok then Renamed(old(files), src, target) else old(files) - {target}
    {
      files := files - {target};
      if succeeds { files := files[target := files[src]] - {src}; }
      ok := succeeds;
    }

    /** Moves file i - 1 to i, trying twice. */
    method MoveUp(i: nat, first: bool, second: bool) returns (ok: bool)
      requires i > 0
      modifies this`files
      ensures ok == (first || second || i - 1 !in old(Files()))
      ensures SameOthers(old(files), files, base)
      ensures ok && i - 1 in old(Files()) ==> Files() == old(Files())[i := old(Files())[i - 1]] - {i - 1}
      ensures i - 1 !in old(Files()) ==> files == old(files)
      ensures !ok ==> Files() == old(Files()) - {i}
    {
      var src := CalcFilename(base, i - 1);
      if src !in files { return true; }
      var target := CalcFilename(base, i);
      ViewRename(files, base, i);
      ViewRemove(files, base, i);
      ok := RenameFile(src, target, first);
      if !ok {
        ViewRename(files, base, i);
        assert files - {target} == files;
        ok := RenameFile(src, target, second);
        assert ok ==> files == Renamed(old(files), src, target);
      }
    }

    /** Truncates the base file. */
    method Reopen()
      modifies this`files
      ensures files == old(files)[base := []]
      ensures Files() == old(Files())[0 := []] && SameOthers(old(files), files, base)
    {
      assert CalcFilename(base, 0) == base;
      ViewWrite(files, base, 0, []);
      files := files[base := []];
    }

    /** The shifting loop, stopping at a rename refused twice. */
    method ShiftAll(first: nat -> bool, second: nat -> bool) returns (ok: bool)
      modifies this`files
      ensures ok && Bounded(old(Files()), maxFiles) && Gapless(old(Files())) ==>
                Files() == Shifting(old(Files()), maxFiles, 0)
      ensures (forall i :: first(i) || second(i)) ==> ok
      ensures Bounded(old(Files()), maxFiles) ==> Bounded(Files(), maxFiles)
      ensures SameOthers(old(files), files, base)
    {
      var i := maxFiles;
      ghost var start := Files();
      ghost var steady := Bounded(start, maxFiles) && Gapless(start);
      if steady { ShiftStart(start, maxFiles); }
      while i > 0
        invariant 0 <= i <= maxFiles && (Bounded(start, maxFiles) ==> Bounded(Files(), maxFiles))
        invariant steady ==> Files() == Shifting(start, maxFiles, i)
        invariant SameOthers(old(files), files, base)
      {
        if steady { ShiftStep(start, maxFiles, i); }
        if Bounded(Files(), maxFiles) { MovedBounded(Files(), maxFiles, i); }
        ghost var prev := files;
        ok := MoveUp(i, first(i), second(i));
        OthersSame(old(files), prev, files, base);
        if !ok { return; }
        assert steady ==> Files() == Shifting(start, maxFiles, i - 1);
        i := i - 1;
      }
      ok := true;
    }

    /** Shifts the files up; `first` and `second` say which renames the system
        grants. A rename refused twice truncates the base file and throws. */
    method Rotate(first: nat -> bool, second: nat -> bool) returns (ok: bool)
      requires Stored()
      modifies this`files, this`currentSize, this`healthy
      ensures ok && healthy ==> Files() == Shifted(old(Files()), maxFiles)
      ensures (forall i :: first(i) || second(i)) ==> ok
      ensures Stored() && files[base] == []
      ensures if ok then currentSize == old(currentSize) && healthy == old(healthy) else !healthy && currentSize == 0
      ensures SameOthers(old(files), files, base)
    {
      ok := ShiftAll(first, second);
      ghost var prev := files;
      Reopen();
      OthersSame(old(files), prev, files, base);
      if !ok {
        currentSize := 0;
        healthy := false;
        return;
      }
      if healthy { RotatedOrderly(old(Files()), maxSize, maxFiles, logged); }
    }

    /** Writes to the base file. */
    method Write(formatted: Text)
      requires Stored() && (files[base] == [] || Size(files[base]) + |formatted| <= maxSize)
      modifies this`files, this`logged
      ensures Stored() && logged == old(logged) + [formatted]
      ensures files == old(files)[base := old(files)[base] + [formatted]]
      ensures Size(files[base]) == Size(old(files)[base]) + |formatted|
      ensures Files() == old(Files())[0 := files[base]] && SameOthers(old(files), files, base)
    {
      assert CalcFilename(base, 0) == base;
      SizeSnoc(files[base], formatted);
      ViewWrite(files, base, 0, files[base] + [formatted]);
      if healthy { WrittenOrderly(Files(), maxSize, maxFiles, logged, formatted); }
      files := files[base := files[base] + [formatted]];
      logged := logged + [formatted];
    }

    /** Appends a message, rotating first if it does not fit. */
    method SinkIt(formatted: Text, first: nat -> bool, second: nat -> bool) returns (ok: bool)
      requires Valid()
      modifies this
      ensures Valid() && SameOthers(old(files), files, base)
      ensures (forall i :: first(i) || second(i)) ==> ok
      ensures ok == (logged == old(logged) + [formatted]) && (!ok ==> logged == old(logged) && files[base] == [])
      ensures healthy == (old(healthy) && ok)
      ensures ok && old(currentSize) + |formatted| <= maxSize ==> files == old(files)[base := old(files)[base] + [formatted]]
      ensures ok && old(currentSize) + |formatted| > maxSize ==> files[base] == [formatted]
      ensures healthy && old(currentSize) + |formatted| > maxSize ==>
                Files() == Shifted(old(Files()), maxFiles)[0 := [formatted]]
    {
      ok := true;
      currentSize := currentSize + |formatted|;
      if currentSize > maxSize {
        ok := Rotate(first, second);
        if !ok { return; }
        currentSize := |formatted|;
      }
      ghost var prev := files;
      Write(formatted);
      OthersSame(old(files), prev, files, base);
    }

    /** A run of messages, every rename granted at the first or second try: nothing is
        refused or reordered. */
    method LogAll(msgs: seq<Text>, first: nat -> nat -> bool, second: nat -> nat -> bool)
      requires Valid() && forall n, i :: first(n)(i) || second(n)(i)
      modifies this
      ensures Valid() && healthy == old(healthy) && logged == old(logged) + msgs
      ensures healthy ==> Orderly(Files(), maxSize, maxFiles, old(logged) + msgs)
    {
      var n := 0;
      assert old(logged) == old(logged) + msgs[..0];
      while n < |msgs|
        invariant 0 <= n <= |msgs| && Valid() && healthy == old(healthy)
        invariant logged == old(logged) + msgs[..n]
      {
        var ok := SinkIt(msgs[n], first(n), second(n));
        assert ok;
        assert old(logged) + msgs[..n + 1] == old(logged) + msgs[..n] + [msgs[n]];
        n := n + 1;
      }
      assert msgs[..n] == msgs;
    }
  }
}
