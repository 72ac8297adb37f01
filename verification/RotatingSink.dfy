/** spdlog's rotating file sink over an abstract file system: file `i` stands for the name that
    `calc_filename` gives for index `i`. Renaming always succeeds. */
module RotatingSink {
  import opened Joining

  type Files = map<nat, string>

  function Text(files: Files, i: nat): string {
    if i in files then files[i] else ""
  }

  /** The contents of files `n` down to 0, the oldest text first. */
  function Concat(files: Files, n: nat): string {
    Text(files, n) + if n == 0 then "" else Concat(files, n - 1)
  }

  function Rename(files: Files, from: nat, to: nat): Files
    requires from in files && from != to
  {
    (files - {to} - {from})[to := files[from]]
  }

  lemma {:induction false} ConcatSame(files: Files, other: Files, n: nat)
    requires forall i: nat :: i <= n ==> Text(files, i) == Text(other, i)
    ensures Concat(files, n) == Concat(other, n)
  {
    if n == 0 {
    } else {
      ConcatSame(files, other, n - 1);
    }
  }

  lemma ConcatAt(files: Files, n: nat)
    ensures Concat(files, n) == if n == 0 then Text(files, 0) else Text(files, n) + Concat(files, n - 1)
  {
    EmptyJoined(Text(files, 0));
  }

  lemma MovedText(files: Files, i: nat, j: nat)
    requires 0 < i && i - 1 in files
    ensures Text(Rename(files, i - 1, i), j) ==
            if j == i then Text(files, i - 1) else if j == i - 1 then "" else Text(files, j)
  {
  }

  /** Moving a file one place up loses only what it replaces, which must be the oldest. */
  lemma {:induction false} ConcatMove(files: Files, n: nat, i: nat)
    requires 0 < i <= n && i - 1 in files && (i < n ==> i !in files)
    ensures Concat(files, n) == (if i == n then Text(files, n) else "") + Concat(Rename(files, i - 1, i), n)
  {
    hide Concat, Rename;
    var moved := Rename(files, i - 1, i);
    ConcatAt(files, n);
    ConcatAt(moved, n);
    MovedText(files, i, n);
    if i < n {
      ConcatMove(files, n - 1, i);
      EmptyJoined(Concat(moved, n - 1));
      EmptyJoined(Concat(moved, n));
    } else {
      ConcatAt(files, n - 1);
      ConcatAt(moved, n - 1);
      MovedText(files, i, n - 1);
      EmptyJoined(Text(files, n - 1));
      if n > 1 {
        forall j: nat | j <= n - 2
          ensures Text(files, j) == Text(moved, j)
        {
          MovedText(files, i, j);
        }
        ConcatSame(files, moved, n - 2);
        EmptyJoined(Concat(files, n - 2));
      }
    }
  }

  /** Writing at the end of the live file appends to everything. */
  lemma {:induction false} ConcatWrite(files: Files, n: nat, text: string)
    ensures Concat(files[0 := Text(files, 0) + text], n) == Concat(files, n) + text
  {
    hide Concat;
    var written := files[0 := Text(files, 0) + text];
    ConcatAt(files, n);
    ConcatAt(written, n);
    if n == 0 {
    } else {
      ConcatWrite(files, n - 1, text);
      assert Text(written, n) == Text(files, n);
      Joined(Text(files, n), Concat(files, n - 1), text);
    }
  }

  /** Starting the live file anew. */
  lemma Truncate(files: Files, n: nat)
    ensures n == 0 ==> Concat(files, 0) == Text(files, 0) && Concat(files[0 := ""], 0) == ""
    ensures 0 !in files ==> Concat(files, n) == Concat(files[0 := ""], n)
  {
    ConcatAt(files, 0);
    ConcatAt(files[0 := ""], 0);
    if 0 !in files {
      ConcatSame(files, files[0 := ""], n);
    }
  }

  /** Where file `i` comes from when all files up to `n` move one place up: from the place before, or,
      for the last one, from itself if there is nothing before. */
  predicate Takes(was: Files, now: Files, n: nat, i: nat)
    requires i > 0
  {
    if i <= n && i - 1 in was then i in now && now[i] == was[i - 1]
    else if i >= n && i in was then i in now && now[i] == was[i]
    else i !in now
  }

  ghost predicate MovedUp(was: Files, now: Files, n: nat) {
    forall i: nat :: i > 0 ==> Takes(was, now, n, i)
  }

  /** The live file makes no difference to that. */
  lemma WrittenMovedUp(was: Files, now: Files, n: nat, text: string)
    requires MovedUp(was, now, n)
    ensures MovedUp(was, now[0 := text], n)
  {
    var now' := now[0 := text];
    forall i: nat | i > 0
      ensures Takes(was, now', n, i)
    {
      assert Takes(was, now, n, i);
    }
  }

  // The counter of the live file

  predicate Overflows(counter: nat, message: string, maxSize: nat) {
    counter + |message| > maxSize
  }

  function Counted(counter: nat, message: string, maxSize: nat): nat {
    |message| + if Overflows(counter, message, maxSize) then 0 else counter
  }

  /** One of the messages makes the sink rotate. */
  predicate Rotates(counter: nat, messages: seq<string>, maxSize: nat)
    decreases |messages|
  {
    messages != [] &&
    (Overflows(counter, messages[0], maxSize) ||
     Rotates(Counted(counter, messages[0], maxSize), messages[1..], maxSize))
  }

  function Total(messages: seq<string>): nat {
    if messages == [] then 0 else |messages[0]| + Total(messages[1..])
  }

  /** The messages make the sink rotate exactly when they do not fit on top of what is counted at the
      start, even if they would fit into the live file. */
  lemma {:induction false} RotatesWhen(counter: nat, messages: seq<string>, maxSize: nat)
    ensures Rotates(counter, messages, maxSize) <==> messages != [] && counter + Total(messages) > maxSize
    decreases |messages|
  {
    if messages == [] || Overflows(counter, messages[0], maxSize) {
    } else {
      RotatesWhen(Counted(counter, messages[0], maxSize), messages[1..], maxSize);
    }
  }

  class RotatingSink {
    const maxSize: nat
    const maxFiles: nat
    var files: Files
    var currentSize: nat
    /** What the files held at first and everything logged since, and the part of it that is lost. */
    ghost var history: string
    ghost var lost: string
    /** The size found on opening, as long as it is counted although its text has been rotated away. */
    ghost var stale: nat

    ghost predicate Kept()
      reads this
    {
      0 in files && history == lost + Concat(files, maxFiles)
    }

    ghost predicate Valid()
      reads this
    {
      Kept() && currentSize == |files[0]| + stale
    }

    /** The text that is lost by rotating. */
    ghost function Dropped(): string
      requires 0 in files
      reads this
    {
      if maxFiles == 0 then files[0] else if maxFiles - 1 in files then Text(files, maxFiles) else ""
    }

    /** The counter is not reset when the file that was found is rotated away. */
    constructor (files: Files, maxSize: nat, maxFiles: nat, rotateOnOpen: bool)
      ensures Valid() && this.maxSize == maxSize && this.maxFiles == maxFiles
      ensures history == Concat(files, maxFiles) && currentSize == |Text(files, 0)|
      ensures stale == if rotateOnOpen then |Text(files, 0)| else 0
      ensures rotateOnOpen ==> this.files[0] == ""
      ensures rotateOnOpen && Text(files, 0) != "" ==>
                lost == if maxFiles == 0 then Text(files, 0)
                        else if maxFiles == 1 || maxFiles - 1 in files then Text(files, maxFiles) else ""
      ensures rotateOnOpen && Text(files, 0) != "" ==> MovedUp(files, this.files, maxFiles)
      ensures !rotateOnOpen || Text(files, 0) == "" ==> this.files == files[0 := Text(files, 0)] && lost == ""
    {
      this.maxSize, this.maxFiles := maxSize, maxFiles;
      this.files := files[0 := Text(files, 0)];
      currentSize := |Text(files, 0)|;
      history, lost, stale := Concat(files, maxFiles), "", 0;
      new;
      ConcatSame(files, this.files, maxFiles);
      EmptyJoined(Concat(files, maxFiles));
      hide Concat;
      if rotateOnOpen && currentSize > 0 {
        assert this.files == files;
        Rotate();
        EmptyJoined(lost);
        stale := currentSize;
      }
    }

    /** The renaming loop of `rotate_`. */
    method MoveUp() returns (ghost gone: string)
      modifies this`files
      ensures Concat(old(files), maxFiles) == gone + Concat(files, maxFiles)
      ensures maxFiles == 0 ==> files == old(files) && gone == ""
      ensures maxFiles > 0 ==> 0 !in files
      ensures maxFiles > 0 ==> gone == if maxFiles - 1 in old(files) then Text(old(files), maxFiles) else ""
      ensures MovedUp(old(files), files, maxFiles)
    {
      hide Concat;
      gone := "";
      EmptyJoined(Concat(files, maxFiles));
      var i := maxFiles;
      while i > 0
        invariant 0 <= i <= maxFiles
        invariant forall j: nat :: j < i || j > maxFiles ==>
                    (j in files <==> j in old(files)) && (j in files ==> files[j] == old(files)[j])
        invariant forall j: nat :: i < j ==> Takes(old(files), files, maxFiles, j)
        invariant if i == maxFiles then files == old(files) && gone == "" else i !in files
        invariant i < maxFiles ==> gone == if maxFiles - 1 in old(files) then Text(old(files), maxFiles) else ""
        invariant Concat(old(files), maxFiles) == gone + Concat(files, maxFiles)
      {
        ghost var before := files;
        if i - 1 in files {
          ConcatMove(files, maxFiles, i);
          ghost var rest := Concat(Rename(files, i - 1, i), maxFiles);
          EmptyJoined(rest);
          if i == maxFiles {
            EmptyJoined(Concat(files, maxFiles));
            gone := Text(files, maxFiles);
          }
          files := Rename(files, i - 1, i);
        }
        forall j: nat | i - 1 < j
          ensures Takes(old(files), files, maxFiles, j)
        {
          assert j > i ==> Takes(old(files), before, maxFiles, j);
        }
        i := i - 1;
      }
    }

    /** spdlog's `rotate_`: each file moves one place up, from the oldest, and the live file starts
        empty. Only the text of the last file is lost, and only if another takes its place. */
    method Rotate()
      requires Kept()
      modifies this`files, this`lost
      ensures Kept() && files[0] == ""
      ensures lost == old(lost) + old(Dropped())
      ensures MovedUp(old(files), files, maxFiles)
    {
      ghost var gone := MoveUp();
      hide Concat;
      Truncate(files, maxFiles);
      if maxFiles == 0 {
        EmptyJoined(files[0]);
        gone := files[0];
      }
      WrittenMovedUp(old(files), files, maxFiles, "");
      files := files[0 := ""];
      Joined(lost, gone, Concat(files, maxFiles));
      lost := lost + gone;
    }

    /** spdlog's `sink_it_`, for a message already formatted. Nothing is lost but the oldest text, and
        the live file stays within the limit if the message does. It rotates when the message does not
        fit on top of the live file and of what is stale. */
    method SinkIt(message: string)
      requires Valid()
      modifies this
      ensures Valid() && history == old(history) + message
      ensures |message| <= maxSize ==> |files[0]| <= maxSize
      ensures currentSize == Counted(old(currentSize), message, maxSize)
      ensures Overflows(old(currentSize), message, maxSize) ==>
                && files[0] == message && MovedUp(old(files), files, maxFiles)
                && stale == 0 && lost == old(lost) + old(Dropped())
      ensures !Overflows(old(currentSize), message, maxSize) ==>
                files == old(files)[0 := old(files[0]) + message] && stale == old(stale) && lost == old(lost)
    {
      hide Concat;
      currentSize := currentSize + |message|;
      if currentSize > maxSize {
        Rotate();
        currentSize, stale := |message|, 0;
        EmptyJoined(message);
        WrittenMovedUp(old(files), files, maxFiles, "" + message);
      }
      ConcatWrite(files, maxFiles, message);
      Joined(lost, Concat(files, maxFiles), message);
      history := history + message;
      files := files[0 := files[0] + message];
    }
  }

  const TEN: string := "0123456789"

  /** A file as large as the limit is rotated away on opening, and lost to a message of one character,
      although both would fit. */
  method LosesEarly() returns (sink: RotatingSink)
    ensures sink.maxSize == 10 && sink.maxFiles == 1 && sink.history == TEN + "a"
    ensures sink.lost == TEN && Text(sink.files, 1) == "" && Text(sink.files, 0) == "a"
  {
    var files: Files := map[0 := TEN];
    sink := new RotatingSink(files, 10, 1, true);
    assert |TEN| == 10 && "" + TEN == TEN && sink.lost == "";
    assert Concat(files, 1) == TEN && Concat(sink.files, 1) == Text(sink.files, 1) + "";
    assert "" + (Text(sink.files, 1) + "") == Text(sink.files, 1);
    sink.SinkIt("a");
    assert Concat(sink.files, 1) == Text(sink.files, 1) + "a";
    assert sink.lost == "" + TEN;
    assert |Text(sink.files, 1)| == 0;
  }
}
