/** The source classifier: `classify_sources` asks the model for a category
    for every Java file under the source root and records the answers, by
    path string, in one JSON file. */
module Classifier {
  import opened Text
  import opened Wrappers
  import opened Paths
  import opened Oracle

  /** An entry of the classification: a path string and its category. */
  datatype Entry = Entry(path: string, decision: string)

  /** The most text of a file that is sent to the model. */
  const SnippetLimit: nat := 8000

  /** `content[:8000]` */
  function Snippet(content: string): (s: string)
    ensures |s| <= |content| && |s| <= SnippetLimit && s == content[..|s|]
    ensures |s| == SnippetLimit || s == content
  {
    if |content| <= SnippetLimit then content else content[..SnippetLimit]
  }

  /** The files `rglob("*.java")` yields: their name ends in `.java`. */
  predicate IsJavaFile(p: Path) {
    EndsWith(Name(p), ".java")
  }

  /** The keys of a classification. */
  function Keys(entries: seq<Entry>): set<string> {
    set k | 0 <= k < |entries| :: entries[k].path
  }

  /** No key occurs twice, as in a dict. */
  predicate Distinct(entries: seq<Entry>) {
    forall i, j | 0 <= i < j < |entries| :: entries[i].path != entries[j].path
  }

  /** `entries[key]`, None when the key is absent. */
  function Lookup(entries: seq<Entry>, key: string): Option<string> {
    if entries == [] then None
    else if entries[0].path == key then Some(entries[0].decision)
    else Lookup(entries[1..], key)
  }

  /** `results[e.path] = e.decision` on a dict that keeps insertion order:
      an existing key keeps its place and takes the new value, a new key
      goes at the end. */
  function Put(entries: seq<Entry>, e: Entry): seq<Entry> {
    if entries == [] then [e]
    else if entries[0].path == e.path then [e] + entries[1..]
    else [entries[0]] + Put(entries[1..], e)
  }

  /** After the assignment the key maps to the new value, every other key
      to what it mapped to before, and the keys are the old ones and the
      new one, still each once. */
  lemma {:induction false} PutSpec(entries: seq<Entry>, e: Entry, key: string)
    ensures Lookup(Put(entries, e), key) == if key == e.path then Some(e.decision) else Lookup(entries, key)
    ensures Keys(Put(entries, e)) == Keys(entries) + {e.path}
    ensures Distinct(entries) ==> Distinct(Put(entries, e))
    decreases |entries|
  {
    if entries != [] {
      var rest := entries[1..];
      assert entries == [entries[0]] + rest;
      KeysCons(entries[0], rest);
      if entries[0].path == e.path {
        KeysCons(e, rest);
        assert Put(entries, e)[1..] == rest;
        if Distinct(entries) {
          forall i, j | 0 <= i < j < |Put(entries, e)| ensures Put(entries, e)[i].path != Put(entries, e)[j].path {
            assert Put(entries, e)[j] == entries[j];
            if i > 0 { assert Put(entries, e)[i] == entries[i]; }
          }
        }
      } else {
        PutSpec(rest, e, key);
        var put := Put(rest, e);
        KeysCons(entries[0], put);
        assert Put(entries, e) == [entries[0]] + put;
        if Distinct(entries) {
          assert Distinct(rest) by {
            forall i, j | 0 <= i < j < |rest| ensures rest[i].path != rest[j].path {
              assert rest[i] == entries[i + 1] && rest[j] == entries[j + 1];
            }
          }
          assert entries[0].path !in Keys(rest) by {
            forall k | 0 <= k < |rest| ensures rest[k].path != entries[0].path {
              assert rest[k] == entries[k + 1];
            }
          }
          forall i, j | 0 <= i < j < |Put(entries, e)| ensures Put(entries, e)[i].path != Put(entries, e)[j].path {
            assert Put(entries, e)[j] == put[j - 1];
            if i == 0 {
              assert put[j - 1].path in Keys(put);
            } else {
              assert Put(entries, e)[i] == put[i - 1];
            }
          }
        }
      }
    }
  }

  lemma KeysCons(e: Entry, rest: seq<Entry>)
    ensures Keys([e] + rest) == {e.path} + Keys(rest)
  {
    var s := [e] + rest;
    forall key | key in Keys(s) ensures key in {e.path} + Keys(rest) {
      var k :| 0 <= k < |s| && s[k].path == key;
      if k > 0 { assert s[k] == rest[k - 1]; }
    }
    forall key | key in Keys(rest) ensures key in Keys(s) {
      var k :| 0 <= k < |rest| && rest[k].path == key;
      assert s[k + 1] == rest[k];
    }
    assert s[0] == e;
  }

  /** The request made for one file. */
  function ClassifyRequest(fs: FileSystem, file: Path): Request
    requires file in fs
  {
    ClassifySource(Render(file), Snippet(fs[file]))
  }

  /** The classification of the files of `listing` from the point where
      `n` requests were made and `acc` holds the answers so far; None
      when the model fails on some request. */
  function Classified(fs: FileSystem, model: Model, listing: seq<Path>, n: nat, acc: seq<Entry>): Option<seq<Entry>>
    requires forall k | 0 <= k < |listing| :: listing[k] in fs
    decreases |listing|
  {
    if listing == [] then Some(acc)
    else if !IsJavaFile(listing[0]) then Classified(fs, model, listing[1..], n, acc)
    else
      match model(n, ClassifyRequest(fs, listing[0]))
      case Unavailable => None
      case Answer(text) =>
        Classified(fs, model, listing[1..], n + 1, Put(acc, Entry(Render(listing[0]), Strip(text))))
  }

  /** The classification of all files of the listing. */
  function Classification(fs: FileSystem, model: Model, listing: seq<Path>): Option<seq<Entry>>
    requires forall k | 0 <= k < |listing| :: listing[k] in fs
  {
    Classified(fs, model, listing, 0, [])
  }

  /** `classify_sources`: the files under the source root come as
      `listing`, in the order `rglob` visits them. Each Java file is read,
      its snippet sent to the model, and the stripped reply stored under
      its path string; the results are written to `outputFile` once, at
      the end, as `encode` formats them. A failing request ends the run
      before anything is written. */
  method ClassifySources(fs: FileSystem, model: Model, listing: seq<Path>, outputFile: Path, encode: seq<Entry> -> string)
    returns (fs': FileSystem, results: Option<seq<Entry>>)
    requires forall k | 0 <= k < |listing| :: listing[k] in fs
    ensures results == Classification(fs, model, listing)
    ensures fs' == if results.Some? then fs[outputFile := encode(results.value)] else fs
  {
    var entries: seq<Entry> := [];
    var n := 0;
    var rest := listing;
    while rest != []
      invariant forall k | 0 <= k < |rest| :: rest[k] in fs
      invariant Classification(fs, model, listing) == Classified(fs, model, rest, n, entries)
      decreases |rest|
    {
      var javaFile := rest[0];
      if IsJavaFile(javaFile) {
        var content := fs[javaFile];
        var reply := model(n, ClassifySource(Render(javaFile), Snippet(content)));
        if reply.Unavailable? {
          return fs, None;
        }
        var classification := Strip(reply.text);
        entries := Put(entries, Entry(Render(javaFile), classification));
        n := n + 1;
      }
      rest := rest[1..];
    }
    return fs[outputFile := encode(entries)], Some(entries);
  }

  /** The path strings of the Java files of a listing. */
  function JavaKeys(listing: seq<Path>): set<string> {
    set k | 0 <= k < |listing| && IsJavaFile(listing[k]) :: Render(listing[k])
  }

  /** The Java keys of a listing are the first file's, when it is a Java
      file, and those of the rest. */
  lemma JavaKeysCons(listing: seq<Path>)
    requires listing != []
    ensures JavaKeys(listing) == (if IsJavaFile(listing[0]) then {Render(listing[0])} else {}) + JavaKeys(listing[1..])
  {
    var rest := listing[1..];
    forall key | key in JavaKeys(listing)
      ensures key in (if IsJavaFile(listing[0]) then {Render(listing[0])} else {}) + JavaKeys(rest)
    {
      var k :| 0 <= k < |listing| && IsJavaFile(listing[k]) && Render(listing[k]) == key;
      if k > 0 { assert listing[k] == rest[k - 1]; }
    }
    forall key | key in JavaKeys(rest) ensures key in JavaKeys(listing) {
      var k :| 0 <= k < |rest| && IsJavaFile(rest[k]) && Render(rest[k]) == key;
      assert listing[k + 1] == rest[k];
    }
  }

  /** The keys of the classification: every Java file gets exactly one
      entry, keyed by its path string, and no other file gets one; every
      value is stripped. */
  lemma {:induction false} ClassifiedKeys(fs: FileSystem, model: Model, listing: seq<Path>, n: nat, acc: seq<Entry>)
    requires forall k | 0 <= k < |listing| :: listing[k] in fs
    requires Distinct(acc) && forall k | 0 <= k < |acc| :: Strip(acc[k].decision) == acc[k].decision
    ensures var r := Classified(fs, model, listing, n, acc);
      r.Some? ==>
        && Keys(r.value) == Keys(acc) + JavaKeys(listing)
        && Distinct(r.value)
        && forall k | 0 <= k < |r.value| :: Strip(r.value[k].decision) == r.value[k].decision
    decreases |listing|
  {
    if listing != [] {
      var rest := listing[1..];
      JavaKeysCons(listing);
      if !IsJavaFile(listing[0]) {
        ClassifiedKeys(fs, model, rest, n, acc);
      } else {
        match model(n, ClassifyRequest(fs, listing[0]))
        case Unavailable =>
        case Answer(text) =>
          var e := Entry(Render(listing[0]), Strip(text));
          var put := Put(acc, e);
          PutSpec(acc, e, e.path);
          StripIdempotent(text);
          PutStripped(acc, e);
          ClassifiedKeys(fs, model, rest, n + 1, put);
      }
    }
  }

  /** How many of the listed files are Java files: the number of requests
      made for them. */
  function JavaCount(listing: seq<Path>): nat {
    if listing == [] then 0
    else (if IsJavaFile(listing[0]) then 1 else 0) + JavaCount(listing[1..])
  }

  /** The Java files before `k` are the first file, when it is one, and
      those before `k - 1` in the rest. */
  lemma JavaCountCons(listing: seq<Path>, k: nat)
    requires 1 <= k <= |listing|
    ensures JavaCount(listing[..k]) == (if IsJavaFile(listing[0]) then 1 else 0) + JavaCount(listing[1..][..k - 1])
  {
    assert listing[..k][0] == listing[0];
    assert listing[..k][1..] == listing[1..][..k - 1];
  }

  /** No Java file after `listing[k]` has its path string: the dict keeps
      the value stored for it. */
  predicate LastOfKey(listing: seq<Path>, k: nat)
    requires k < |listing|
  {
    forall j | k < j < |listing| :: IsJavaFile(listing[j]) ==> Render(listing[j]) != Render(listing[k])
  }

  /** The value stored for `listing[k]`, when it is the last Java file with
      its path string: the stripped reply to the request made for it, the
      request that follows one for each Java file before it. */
  ghost predicate HoldsReply(fs: FileSystem, model: Model, listing: seq<Path>, n: nat, entries: seq<Entry>, k: nat)
    requires k < |listing| && listing[k] in fs
  {
    var reply := model(n + JavaCount(listing[..k]), ClassifyRequest(fs, listing[k]));
    reply.Answer? && Lookup(entries, Render(listing[k])) == Some(Strip(reply.text))
  }

  /** A key no Java file of the listing has keeps the value it had. */
  lemma {:induction false} ClassifiedUntouched(fs: FileSystem, model: Model, listing: seq<Path>, n: nat, acc: seq<Entry>, key: string)
    requires forall k | 0 <= k < |listing| :: listing[k] in fs
    requires key !in JavaKeys(listing)
    ensures var r := Classified(fs, model, listing, n, acc);
      r.Some? ==> Lookup(r.value, key) == Lookup(acc, key)
    decreases |listing|
  {
    if listing != [] {
      var rest := listing[1..];
      assert key !in JavaKeys(rest) by {
        forall k | 0 <= k < |rest| && IsJavaFile(rest[k]) ensures Render(rest[k]) != key {
          assert rest[k] == listing[k + 1];
        }
      }
      if !IsJavaFile(listing[0]) {
        ClassifiedUntouched(fs, model, rest, n, acc, key);
      } else {
        match model(n, ClassifyRequest(fs, listing[0]))
        case Unavailable =>
        case Answer(text) =>
          var e := Entry(Render(listing[0]), Strip(text));
          assert e.path in JavaKeys(listing);
          PutSpec(acc, e, key);
          ClassifiedUntouched(fs, model, rest, n + 1, Put(acc, e), key);
      }
    }
  }

  /** Every Java file that is the last with its path string holds the
      stripped reply to its own request. */
  lemma {:induction false} ClassifiedValues(fs: FileSystem, model: Model, listing: seq<Path>, n: nat, acc: seq<Entry>)
    requires forall k | 0 <= k < |listing| :: listing[k] in fs
    ensures var r := Classified(fs, model, listing, n, acc);
      r.Some? ==> forall k | 0 <= k < |listing| && IsJavaFile(listing[k]) && LastOfKey(listing, k) ::
        HoldsReply(fs, model, listing, n, r.value, k)
    decreases |listing|
  {
    var r := Classified(fs, model, listing, n, acc);
    if listing != [] && r.Some? {
      var rest := listing[1..];
      var m := if IsJavaFile(listing[0]) then n + 1 else n;
      var acc' := if IsJavaFile(listing[0]) then Put(acc, Entry(Render(listing[0]), Strip(model(n, ClassifyRequest(fs, listing[0])).text))) else acc;
      assert r == Classified(fs, model, rest, m, acc');
      ClassifiedValues(fs, model, rest, m, acc');
      forall k | 0 <= k < |listing| && IsJavaFile(listing[k]) && LastOfKey(listing, k)
        ensures HoldsReply(fs, model, listing, n, r.value, k)
      {
        if k == 0 {
          FirstAnswered(fs, model, listing, n, acc);
          ValueOfFirst(fs, model, listing, n, acc, r.value);
        } else {
          LastOfKeyTail(listing, k);
          ValueOfLater(fs, model, listing, n, m, r.value, k);
        }
      }
    }
  }

  /** A Java file last with its path string in the listing is so in the
      listing's tail. */
  lemma LastOfKeyTail(listing: seq<Path>, k: nat)
    requires 1 <= k < |listing| && LastOfKey(listing, k)
    ensures LastOfKey(listing[1..], k - 1)
  {
    var rest := listing[1..];
    forall j | k - 1 < j < |rest| ensures IsJavaFile(rest[j]) ==> Render(rest[j]) != Render(rest[k - 1]) {
      assert rest[j] == listing[j + 1] && rest[k - 1] == listing[k];
    }
  }

  /** A file after the first holds the reply to its request in the listing
      when it does in the tail, asked from one request later when the first
      file is a Java file. */
  lemma ValueOfLater(fs: FileSystem, model: Model, listing: seq<Path>, n: nat, m: nat, entries: seq<Entry>, k: nat)
    requires forall j | 0 <= j < |listing| :: listing[j] in fs
    requires 1 <= k < |listing|
    requires m == n + (if IsJavaFile(listing[0]) then 1 else 0)
    requires HoldsReply(fs, model, listing[1..], m, entries, k - 1)
    ensures HoldsReply(fs, model, listing, n, entries, k)
  {
    JavaCountCons(listing, k);
    var file := listing[k];
    assert file == listing[1..][k - 1];
    assert n + JavaCount(listing[..k]) == m + JavaCount(listing[1..][..k - 1]);
  }

  /** The path string of a first file that no later Java file shares is
      not a key of the rest. */
  lemma FirstKeyNotLater(listing: seq<Path>)
    requires listing != [] && LastOfKey(listing, 0)
    ensures Render(listing[0]) !in JavaKeys(listing[1..])
  {
    var rest := listing[1..];
    forall j | 0 <= j < |rest| && IsJavaFile(rest[j]) ensures Render(rest[j]) != Render(listing[0]) {
      assert rest[j] == listing[j + 1];
    }
  }

  /** The first file, when it is a Java file that no later Java file shares
      a path string with, holds the stripped reply to the first request. */
  lemma ValueOfFirst(fs: FileSystem, model: Model, listing: seq<Path>, n: nat, acc: seq<Entry>, entries: seq<Entry>)
    requires forall k | 0 <= k < |listing| :: listing[k] in fs
    requires listing != [] && IsJavaFile(listing[0]) && LastOfKey(listing, 0)
    requires var reply := model(n, ClassifyRequest(fs, listing[0]));
      && reply.Answer?
      && Classified(fs, model, listing[1..], n + 1, Put(acc, Entry(Render(listing[0]), Strip(reply.text)))) == Some(entries)
    ensures HoldsReply(fs, model, listing, n, entries, 0)
  {
    assert JavaCount(listing[..0]) == 0 by { assert listing[..0] == []; }
    var reply := model(n, ClassifyRequest(fs, listing[0]));
    var e := Entry(Render(listing[0]), Strip(reply.text));
    FirstKeyNotLater(listing);
    ClassifiedUntouched(fs, model, listing[1..], n + 1, Put(acc, e), e.path);
    PutSpec(acc, e, e.path);
  }

  /** A classification that goes through answered the request for a first
      Java file, and stored the stripped reply before going on. */
  lemma FirstAnswered(fs: FileSystem, model: Model, listing: seq<Path>, n: nat, acc: seq<Entry>)
    requires forall k | 0 <= k < |listing| :: listing[k] in fs
    requires listing != [] && IsJavaFile(listing[0])
    requires Classified(fs, model, listing, n, acc).Some?
    ensures var reply := model(n, ClassifyRequest(fs, listing[0]));
      && reply.Answer?
      && Classified(fs, model, listing, n, acc)
         == Classified(fs, model, listing[1..], n + 1, Put(acc, Entry(Render(listing[0]), Strip(reply.text))))
  {
  }

  /** Every Java file gets exactly one entry, keyed by its path string, and
      no other file gets one; the entry of the last Java file with a given
      path string holds the model's reply to that file's request with its
      surrounding whitespace removed, whatever the reply says. */
  lemma ClassifiedEntries(fs: FileSystem, model: Model, listing: seq<Path>, n: nat, acc: seq<Entry>)
    requires forall k | 0 <= k < |listing| :: listing[k] in fs
    requires Distinct(acc) && forall k | 0 <= k < |acc| :: Strip(acc[k].decision) == acc[k].decision
    ensures var r := Classified(fs, model, listing, n, acc);
      r.Some? ==>
        && Keys(r.value) == Keys(acc) + JavaKeys(listing)
        && Distinct(r.value)
        && (forall k | 0 <= k < |r.value| :: Strip(r.value[k].decision) == r.value[k].decision)
        && forall k | 0 <= k < |listing| && IsJavaFile(listing[k]) && LastOfKey(listing, k) ::
             HoldsReply(fs, model, listing, n, r.value, k)
  {
    ClassifiedKeys(fs, model, listing, n, acc);
    ClassifiedValues(fs, model, listing, n, acc);
  }

  lemma {:induction false} PutStripped(entries: seq<Entry>, e: Entry)
    requires forall k | 0 <= k < |entries| :: Strip(entries[k].decision) == entries[k].decision
    requires Strip(e.decision) == e.decision
    ensures forall k | 0 <= k < |Put(entries, e)| :: Strip(Put(entries, e)[k].decision) == Put(entries, e)[k].decision
    decreases |entries|
  {
    if entries != [] && entries[0].path != e.path {
      PutStripped(entries[1..], e);
      var put := Put(entries, e);
      forall k | 0 <= k < |put| ensures Strip(put[k].decision) == put[k].decision {
        if k > 0 { assert put[k] == Put(entries[1..], e)[k - 1]; }
      }
    }
  }

  /** The whole classification: one entry per Java file, keyed by its path
      string; the entry of the last Java file with a given path string holds
      the stripped reply to that file's request. */
  lemma ClassificationEntries(fs: FileSystem, model: Model, listing: seq<Path>)
    requires forall k | 0 <= k < |listing| :: listing[k] in fs
    requires Classification(fs, model, listing).Some?
    ensures var entries := Classification(fs, model, listing).value;
      && Keys(entries) == JavaKeys(listing)
      && Distinct(entries)
      && (forall k | 0 <= k < |entries| :: Strip(entries[k].decision) == entries[k].decision)
      && forall k | 0 <= k < |listing| && IsJavaFile(listing[k]) && LastOfKey(listing, k) ::
           var reply := model(JavaCount(listing[..k]), ClassifyRequest(fs, listing[k]));
           reply.Answer? && Lookup(entries, Render(listing[k])) == Some(Strip(reply.text))
  {
    ClassifiedEntries(fs, model, listing, 0, []);
    assert Keys([]) == {};
  }

  /** The requests the classification makes, in order: one per Java file. */
  function Requests(fs: FileSystem, listing: seq<Path>): seq<Request>
    requires forall k | 0 <= k < |listing| :: listing[k] in fs
  {
    if listing == [] then []
    else (if IsJavaFile(listing[0]) then [ClassifyRequest(fs, listing[0])] else []) + Requests(fs, listing[1..])
  }

  /** The model fails on one of `requests`, asked from the `n`-th call on. */
  predicate Refuses(model: Model, n: nat, requests: seq<Request>) {
    exists i | 0 <= i < |requests| :: model(n + i, requests[i]).Unavailable?
  }

  /** The classification fails exactly when the model fails on one of its
      requests. */
  lemma {:induction false} ClassifiedFails(fs: FileSystem, model: Model, listing: seq<Path>, n: nat, acc: seq<Entry>)
    requires forall k | 0 <= k < |listing| :: listing[k] in fs
    ensures Classified(fs, model, listing, n, acc).None? <==> Refuses(model, n, Requests(fs, listing))
    decreases |listing|
  {
    if listing != [] {
      var rest := listing[1..];
      var requests, later := Requests(fs, listing), Requests(fs, rest);
      if IsJavaFile(listing[0]) {
        var first := ClassifyRequest(fs, listing[0]);
        assert requests == [first] + later;
        match model(n, first)
        case Unavailable =>
          assert model(n + 0, requests[0]).Unavailable?;
        case Answer(text) =>
          ClassifiedFails(fs, model, rest, n + 1, Put(acc, Entry(Render(listing[0]), Strip(text))));
          RefusalShift(model, n, first, later);
      } else {
        assert requests == later;
        ClassifiedFails(fs, model, rest, n, acc);
      }
    }
  }

  /** When the first request is answered, a failing request is one of the
      later ones. */
  lemma RefusalShift(model: Model, n: nat, first: Request, later: seq<Request>)
    requires model(n, first).Answer?
    ensures Refuses(model, n, [first] + later) <==> Refuses(model, n + 1, later)
  {
    var requests := [first] + later;
    if Refuses(model, n, requests) {
      var i :| 0 <= i < |requests| && model(n + i, requests[i]).Unavailable?;
      assert i > 0 && requests[i] == later[i - 1] && n + i == n + 1 + (i - 1);
    }
    if Refuses(model, n + 1, later) {
      var i :| 0 <= i < |later| && model(n + 1 + i, later[i]).Unavailable?;
      assert requests[i + 1] == later[i] && n + (i + 1) == n + 1 + i;
    }
  }

  /** Each request is made for a Java file of the listing, so it carries
      that file's path string and, by `Snippet`, a prefix of its text of
      at most 8000 characters. */
  lemma {:induction false} RequestsShape(fs: FileSystem, listing: seq<Path>, i: nat)
    requires forall k | 0 <= k < |listing| :: listing[k] in fs
    requires i < |Requests(fs, listing)|
    ensures exists k | 0 <= k < |listing| ::
      IsJavaFile(listing[k]) && Requests(fs, listing)[i] == ClassifyRequest(fs, listing[k])
    decreases |listing|
  {
    var requests, later := Requests(fs, listing), Requests(fs, listing[1..]);
    if IsJavaFile(listing[0]) && i == 0 {
      assert requests[0] == ClassifyRequest(fs, listing[0]);
    } else {
      var j := if IsJavaFile(listing[0]) then i - 1 else i;
      assert requests[i] == later[j];
      RequestsShape(fs, listing[1..], j);
      var k :| 0 <= k < |listing[1..]| && IsJavaFile(listing[1..][k]) && later[j] == ClassifyRequest(fs, listing[1..][k]);
      assert listing[k + 1] == listing[1..][k];
    }
  }
}
