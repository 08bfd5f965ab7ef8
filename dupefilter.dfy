/**
 * The three shared duplicate filters of src/filters/dupefilter.py. Each one
 * turns a request into its hex fingerprint and performs one "claim or detect
 * duplicate" step on a store: a Redis keyspace, an SQLite table whose primary
 * key is the fingerprint, or a text file with one fingerprint per line.
 *
 * Every filter computes the fingerprint with Scrapy's module-level
 * `fingerprint` function, which each `RequestSeen` receives as its parameter
 * `fingerprint`. The `fingerprinter` handed to a constructor (Scrapy's
 * configured request fingerprinter) is stored, as the base class stores it,
 * and never consulted.
 *
 * The stores are objects of their own, shared by every filter (and so every
 * spider) that is handed the same object. A store operation is one atomic step
 * of that store; that `SET NX` and a primary-key insert are atomic is a
 * property of Redis and SQLite that the model takes as given.
 */
module DupeFilter {
  import opened PyStr
  import opened Fingerprint
  import FlatFile
  import SeenSet

  /** What a store call returns: a value, or the exception it raises. */
  datatype Reply<T> = Ok(value: T) | Raised(exception: string)

  /** Each answer as a successful reply. */
  function Oks(answers: seq<bool>): (r: seq<Reply<bool>>)
    ensures |r| == |answers|
  {
    if answers == [] then [] else [Ok(answers[0])] + Oks(answers[1..])
  }

  /** Answering `b` moves it from the answers still to come to the replies
      given so far. */
  lemma OksStep(answers: seq<Reply<bool>>, b: bool, rest: seq<bool>, total: seq<Reply<bool>>)
    requires answers + Oks([b] + rest) == total
    ensures (answers + [Ok(b)]) + Oks(rest) == total
  {
    assert ([b] + rest)[1..] == rest;
    assert Oks([b] + rest) == [Ok(b)] + Oks(rest);
    assert (answers + [Ok(b)]) + Oks(rest) == answers + ([Ok(b)] + Oks(rest));
  }

  /** A successful reply to the `i`th claim of `xs` extends the replies to the
      claims before it. */
  lemma ClaimReply<T>(answers: seq<Reply<bool>>, r: Reply<bool>, s: set<T>, xs: seq<T>, i: nat,
                      total: seq<Reply<bool>>)
    requires i < |xs|
    requires answers + Oks(SeenSet.Answers(s, xs[i..])) == total
    requires r == Ok(xs[i] in s)
    ensures (answers + [r]) + Oks(SeenSet.Answers(s + {xs[i]}, xs[i + 1..])) == total
    ensures SeenSet.After(s, xs[i..]) == SeenSet.After(s + {xs[i]}, xs[i + 1..])
  {
    SeenSet.ClaimStep(s, xs, i);
    OksStep(answers, xs[i] in s, SeenSet.Answers(s + {xs[i]}, xs[i + 1..]), total);
  }

  /** The answer to the `i`th claim of `xs` extends the answers to the claims
      before it. */
  lemma ClaimAnswer<T>(answers: seq<bool>, s: set<T>, xs: seq<T>, i: nat, total: seq<bool>)
    requires i < |xs|
    requires answers + SeenSet.Answers(s, xs[i..]) == total
    ensures (answers + [xs[i] in s]) + SeenSet.Answers(s + {xs[i]}, xs[i + 1..]) == total
    ensures SeenSet.After(s, xs[i..]) == SeenSet.After(s + {xs[i]}, xs[i + 1..])
  {
    var rest := SeenSet.Answers(s + {xs[i]}, xs[i + 1..]);
    SeenSet.ClaimStep(s, xs, i);
    assert (answers + [xs[i] in s]) + rest == answers + ([xs[i] in s] + rest);
  }

  /** One more call that raises `e`. */
  lemma RaisedStep(answers: seq<Reply<bool>>, e: string, i: nat)
    requires answers == seq(i, _ => Raised(e))
    ensures answers + [Raised(e)] == seq(i + 1, _ => Raised(e))
  {
  }

  /** The fingerprints of `requests`, in order. */
  function Fingerprints(fingerprint: Request -> seq<byte>, requests: seq<Request>): (fps: seq<string>)
    ensures |fps| == |requests|
    ensures forall i :: 0 <= i < |requests| ==> fps[i] == RequestFingerprint(fingerprint, requests[i])
  {
    seq(|requests|, i requires 0 <= i < |requests| => RequestFingerprint(fingerprint, requests[i]))
  }

  /** `f"{key_prefix}:{fp}"` */
  function RedisKey(prefix: string, fp: string): string {
    prefix + ":" + fp
  }

  /** Under one prefix, distinct fingerprints have distinct keys. */
  lemma RedisKeyInjective(prefix: string, a: string, b: string)
    ensures RedisKey(prefix, a) == RedisKey(prefix, b) <==> a == b
  {
    var n := |prefix| + 1;
    assert RedisKey(prefix, a)[n..] == a && RedisKey(prefix, b)[n..] == b;
  }

  /** The keys that `scan_iter(match=f"{prefix}:*")` yields, reading the
      pattern as a literal prefix followed by anything. */
  predicate MatchesPrefix(prefix: string, key: string) {
    prefix + ":" <= key
  }

  /** A Redis keyspace, reduced to which keys exist (every value the filter
      writes is "1"). `reachable` says whether the server answers at all. */
  class RedisServer {
    var keys: set<string>
    var reachable: bool

    constructor(keys: set<string>, reachable: bool)
      ensures this.keys == keys && this.reachable == reachable
    {
      this.keys := keys;
      this.reachable := reachable;
    }

    /** `SET key "1" NX`: stores the key only when it is absent and answers
        whether it did. */
    method SetNx(key: string) returns (r: Reply<bool>)
      modifies this
      ensures reachable == old(reachable)
      ensures old(reachable) ==> r == Ok(key !in old(keys)) && keys == old(keys) + {key}
      ensures !old(reachable) ==> r == Raised("ConnectionError") && keys == old(keys)
    {
      if !reachable {
        return Raised("ConnectionError");
      }
      r := Ok(key !in keys);
      keys := keys + {key};
    }

    /** `DEL key` */
    method Delete(key: string)
      requires reachable
      modifies this
      ensures reachable && keys == old(keys) - {key}
    {
      keys := keys - {key};
    }
  }

  /** Keys under one prefix, shared through one Redis server. */
  class RedisDupeFilter {
    const keyPrefix: string
    const fingerprinter: Request -> seq<byte>
    var client: RedisServer?

    constructor(fingerprinter: Request -> seq<byte>, keyPrefix: string)
      ensures this.fingerprinter == fingerprinter && this.keyPrefix == keyPrefix
      ensures client == null
    {
      this.fingerprinter := fingerprinter;
      this.keyPrefix := keyPrefix;
      client := null;
    }

    /** `open`: `redis.from_url` only builds a client; nothing is sent. */
    method Open(server: RedisServer)
      modifies this
      ensures client == server
    {
      client := server;
    }

    /** `close` hands the connections back; the keys stay, and a later
        command would reconnect. */
    method Close()
      modifies this
      ensures client == old(client)
    {
    }

    /** `f"{self.key_prefix}:{fp}"` for the request's fingerprint. */
    function Key(fingerprint: Request -> seq<byte>, request: Request): string {
      RedisKey(keyPrefix, RequestFingerprint(fingerprint, request))
    }

    /** The keys of `requests`, in order. */
    function Keys(fingerprint: Request -> seq<byte>, requests: seq<Request>): (ks: seq<string>)
      ensures |ks| == |requests|
      ensures forall i :: 0 <= i < |requests| ==> ks[i] == Key(fingerprint, requests[i])
    {
      seq(|requests|, i requires 0 <= i < |requests| => Key(fingerprint, requests[i]))
    }

    /** `request_seen`: "seen" exactly when the request's key existed
        beforehand; afterwards the key exists either way. */
    method RequestSeen(fingerprint: Request -> seq<byte>, request: Request) returns (r: Reply<bool>)
      requires client != null
      modifies client
      ensures client.reachable == old(client.reachable)
      ensures old(client.reachable) ==>
                r == Ok(Key(fingerprint, request) in old(client.keys))
                && client.keys == old(client.keys) + {Key(fingerprint, request)}
      ensures !old(client.reachable) ==> r == Raised("ConnectionError") && client.keys == old(client.keys)
    {
      var fp := RequestFingerprint(fingerprint, request);
      var added := client.SetNx(RedisKey(keyPrefix, fp));
      if added.Raised? {
        return Raised(added.exception);
      }
      r := Ok(!added.value);
    }

    /** `request_seen` asked about `requests` one after another: the answers
        and the final keyspace are those of claiming the requests' keys in
        order, as SeenSet describes. */
    method RequestsSeen(fingerprint: Request -> seq<byte>, requests: seq<Request>)
        returns (answers: seq<Reply<bool>>)
      requires client != null
      modifies client
      ensures client.reachable == old(client.reachable)
      ensures old(client.reachable) ==>
                answers == Oks(SeenSet.Answers(old(client.keys), Keys(fingerprint, requests)))
                && client.keys == SeenSet.After(old(client.keys), Keys(fingerprint, requests))
      ensures !old(client.reachable) ==>
                answers == seq(|requests|, _ => Raised("ConnectionError")) && client.keys == old(client.keys)
    {
      var ks := Keys(fingerprint, requests);
      answers := [];
      var i := 0;
      while i < |requests|
        invariant 0 <= i <= |requests|
        invariant client.reachable == old(client.reachable)
        invariant old(client.reachable) ==>
                    answers + Oks(SeenSet.Answers(client.keys, ks[i..])) == Oks(SeenSet.Answers(old(client.keys), ks))
                    && SeenSet.After(client.keys, ks[i..]) == SeenSet.After(old(client.keys), ks)
        invariant !old(client.reachable) ==>
                    answers == seq(i, _ => Raised("ConnectionError")) && client.keys == old(client.keys)
      {
        ghost var keys := client.keys;
        var r := RequestSeen(fingerprint, requests[i]);
        if old(client.reachable) {
          ClaimReply(answers, r, keys, ks, i, Oks(SeenSet.Answers(old(client.keys), ks)));
        } else {
          assert answers + [r] == seq(i + 1, _ => Raised("ConnectionError"));
        }
        answers := answers + [r];
        i := i + 1;
      }
    }

    /** `clear`: deletes, one by one, every key the scan matches, and no
        other key. */
    method Clear() returns (r: Reply<()>)
      requires client != null
      modifies client
      ensures client.reachable == old(client.reachable)
      ensures old(client.reachable) ==>
                r.Ok? && client.keys == set k | k in old(client.keys) && !MatchesPrefix(keyPrefix, k)
      ensures !old(client.reachable) ==> r.Raised? && client.keys == old(client.keys)
    {
      if !client.reachable {
        return Raised("ConnectionError");
      }
      var matching := set k | k in client.keys && MatchesPrefix(keyPrefix, k);
      var todo := matching;
      while todo != {}
        invariant todo <= matching
        invariant client.reachable
        invariant client.keys == old(client.keys) - (matching - todo)
        decreases todo
      {
        var k :| k in todo;
        client.Delete(k);
        todo := todo - {k};
      }
      return Ok(());
    }
  }

  /** `clear` with prefix `p` reaches a fingerprint key of prefix `q` exactly
      when `p + ":"` is a prefix of `q + ":"`, i.e. when `q` is `p` or starts
      with `p + ":"`; the fingerprint itself never matters, because it holds
      no ':'. */
  lemma {:induction false} ClearReaches(p: string, q: string, bs: seq<byte>)
    ensures MatchesPrefix(p, RedisKey(q, Hex(bs))) <==> p + ":" <= q + ":"
  {
    var fp := Hex(bs);
    HexIsPlain(bs);
    var key := RedisKey(q, fp);
    assert key == (q + ":") + fp;
    if |p| <= |q| {
      assert key[..|p| + 1] == (q + ":")[..|p| + 1];
    } else if |p| + 1 <= |key| {
      assert key[|p|] == fp[|p| - |q| - 1] != ':';
      assert (p + ":")[|p|] == ':';
    }
  }

  /** A filter never clears the keys of another prefix that does not begin
      with its own prefix followed by ':'. */
  lemma OtherPrefixUntouched(p: string, q: string, bs: seq<byte>)
    requires q != p && !(p + ":" <= q)
    ensures !MatchesPrefix(p, RedisKey(q, Hex(bs)))
  {
    ClearReaches(p, q, bs);
    ColonPrefix(p, q);
  }

  /** `p + ":"` begins `q + ":"` exactly when `q` is `p` or begins with
      `p + ":"`. */
  lemma ColonPrefix(p: string, q: string)
    ensures p + ":" <= q + ":" <==> q == p || p + ":" <= q
  {
    if p + ":" <= q + ":" {
      if |p| < |q| {
        assert (q + ":")[..|p| + 1] == q[..|p| + 1];
      } else {
        assert (p + ":")[..|p|] == p && (q + ":")[..|q|] == q;
      }
    }
    if p + ":" <= q {
      assert (q + ":")[..|p| + 1] == q[..|p| + 1];
    }
  }

  /** A database file holding the `seen_urls` table, or not yet holding it.
      `locked` stands for another writer holding the lock longer than the
      busy timeout. */
  class SqliteDatabase {
    var hasTable: bool
    var rows: set<string>
    var locked: bool

    constructor(hasTable: bool, rows: set<string>, locked: bool)
      ensures this.hasTable == hasTable && this.rows == rows && this.locked == locked
    {
      this.hasTable := hasTable;
      this.rows := rows;
      this.locked := locked;
    }
  }

  class SqliteDupeFilter {
    const fingerprinter: Request -> seq<byte>
    var conn: SqliteDatabase?
    var connClosed: bool

    constructor(fingerprinter: Request -> seq<byte>)
      ensures this.fingerprinter == fingerprinter && conn == null
    {
      this.fingerprinter := fingerprinter;
      conn := null;
      connClosed := false;
    }

    /** `open`: connects and creates the table if it does not exist, keeping
        the rows of an existing one. */
    method Open(db: SqliteDatabase) returns (r: Reply<()>)
      modifies this, db
      ensures conn == db && !connClosed && db.locked == old(db.locked)
      ensures !old(db.locked) ==>
                r.Ok? && db.hasTable && db.rows == (if old(db.hasTable) then old(db.rows) else {})
      ensures old(db.locked) ==>
                r == Raised("OperationalError") && db.hasTable == old(db.hasTable) && db.rows == old(db.rows)
    {
      conn := db;
      connClosed := false;
      if db.locked {
        return Raised("OperationalError");
      }
      if !db.hasTable {
        db.hasTable := true;
        db.rows := {};
      }
      return Ok(());
    }

    /** `close`: the connection refuses every later statement. */
    method Close()
      modifies this
      ensures conn == old(conn) && (conn != null ==> connClosed)
    {
      if conn != null {
        connClosed := true;
      }
    }

    /** `request_seen`: the insert either adds the fingerprint (not seen) or
        violates the primary key (seen, table unchanged). Any other database
        error propagates and is neither answer. */
    method RequestSeen(fingerprint: Request -> seq<byte>, request: Request) returns (r: Reply<bool>)
      requires conn != null
      modifies conn
      ensures conn.hasTable == old(conn.hasTable) && conn.locked == old(conn.locked)
      ensures var fp := RequestFingerprint(fingerprint, request);
              if connClosed then r == Raised("ProgrammingError") && conn.rows == old(conn.rows)
              else if old(conn.locked) || !old(conn.hasTable) then
                r == Raised("OperationalError") && conn.rows == old(conn.rows)
              else if fp in old(conn.rows) then r == Ok(true) && conn.rows == old(conn.rows)
              else r == Ok(false) && conn.rows == old(conn.rows) + {fp}
    {
      var fp := RequestFingerprint(fingerprint, request);
      if connClosed {
        return Raised("ProgrammingError");
      }
      if conn.locked || !conn.hasTable {
        return Raised("OperationalError");
      }
      if fp in conn.rows {
        return Ok(true);
      }
      conn.rows := conn.rows + {fp};
      return Ok(false);
    }

    /** The exception every statement raises in the connection's present
        state, if any. */
    function Failure(): (e: string)
      reads this, conn
      requires conn != null
      ensures e == "" <==> !connClosed && !conn.locked && conn.hasTable
    {
      if connClosed then "ProgrammingError"
      else if conn.locked || !conn.hasTable then "OperationalError"
      else ""
    }

    /** `request_seen` asked about `requests` one after another: on a working
        connection the answers and the final table are those of claiming the
        requests' fingerprints in order; otherwise every call raises the same
        exception and the table stays as it was. */
    method RequestsSeen(fingerprint: Request -> seq<byte>, requests: seq<Request>)
        returns (answers: seq<Reply<bool>>)
      requires conn != null
      modifies conn
      ensures conn.hasTable == old(conn.hasTable) && conn.locked == old(conn.locked)
      ensures var e := old(Failure());
              e == "" ==>
                answers == Oks(SeenSet.Answers(old(conn.rows), Fingerprints(fingerprint, requests)))
                && conn.rows == SeenSet.After(old(conn.rows), Fingerprints(fingerprint, requests))
      ensures var e := old(Failure());
              e != "" ==> answers == seq(|requests|, _ => Raised(e)) && conn.rows == old(conn.rows)
    {
      var e := Failure();
      var fps := Fingerprints(fingerprint, requests);
      ghost var total := Oks(SeenSet.Answers(conn.rows, fps));
      answers := [];
      var i := 0;
      while i < |requests|
        invariant 0 <= i <= |requests|
        invariant conn.hasTable == old(conn.hasTable) && conn.locked == old(conn.locked)
        invariant Failure() == e
        invariant e == "" ==>
                    answers + Oks(SeenSet.Answers(conn.rows, fps[i..])) == total
                    && SeenSet.After(conn.rows, fps[i..]) == SeenSet.After(old(conn.rows), fps)
        invariant e != "" ==> answers == seq(i, _ => Raised(e)) && conn.rows == old(conn.rows)
      {
        ghost var rows := conn.rows;
        var r := RequestSeen(fingerprint, requests[i]);
        if e == "" {
          assert conn.rows == rows + {fps[i]};
          ClaimReply(answers, r, rows, fps, i, total);
        } else {
          RaisedStep(answers, e, i);
        }
        answers := answers + [r];
        i := i + 1;
      }
    }

    /** `clear`: `DELETE FROM seen_urls` */
    method Clear() returns (r: Reply<()>)
      requires conn != null
      modifies conn
      ensures conn.hasTable == old(conn.hasTable) && conn.locked == old(conn.locked)
      ensures if connClosed then r == Raised("ProgrammingError") && conn.rows == old(conn.rows)
              else if old(conn.locked) || !old(conn.hasTable) then
                r == Raised("OperationalError") && conn.rows == old(conn.rows)
              else r.Ok? && conn.rows == {}
    {
      if connClosed {
        return Raised("ProgrammingError");
      }
      if conn.locked || !conn.hasTable {
        return Raised("OperationalError");
      }
      conn.rows := {};
      return Ok(());
    }
  }

  /** A text file on disk: whether it exists, and its text. */
  class TextFile {
    var present: bool
    var content: string

    constructor(present: bool, content: string)
      ensures this.present == present && this.content == content
    {
      this.present := present;
      this.content := content;
    }

    /** `open(path, 'a').write(text)` */
    method Append(text: string)
      modifies this
      ensures present && content == (if old(present) then old(content) else []) + text
    {
      if !present {
        present := true;
        content := [];
      }
      content := content + text;
    }
  }

  /** The in-memory set, mirrored to a file line by line. */
  class FileDupeFilter {
    const file: TextFile
    const fingerprinter: Request -> seq<byte>
    var seen: set<string>

    /** Every remembered fingerprint fits on one line of the file. */
    predicate Valid()
      reads this
    {
      forall fp :: fp in seen ==> FlatFile.IsLine(fp)
    }

    /** The file exists, ends with a complete line, and loads as the set. */
    predicate Mirrored()
      reads this, file
    {
      && file.present
      && (file.content == [] || file.content[|file.content| - 1] == '\n')
      && FlatFile.Load(file.content) == seen
    }

    constructor(fingerprinter: Request -> seq<byte>, file: TextFile)
      ensures this.fingerprinter == fingerprinter && this.file == file
      ensures seen == {} && Valid()
    {
      this.fingerprinter := fingerprinter;
      this.file := file;
      seen := {};
    }

    /** `open`: an existing file replaces the set by its stripped lines; with
        no file the set stays as it was. */
    method Open()
      modifies this
      ensures Valid() == (old(Valid()) || file.present)
      ensures file.present ==> seen == FlatFile.Load(file.content)
      ensures !file.present ==> seen == old(seen)
    {
      if file.present {
        seen := FlatFile.Load(file.content);
        FlatFile.LoadGivesLines(file.content);
      }
    }

    /** `request_seen`: a remembered fingerprint answers "seen" and changes
        nothing; a new one is remembered and appended as one more line. */
    method RequestSeen(fingerprint: Request -> seq<byte>, request: Request) returns (seenBefore: bool)
      requires Valid()
      modifies this, file
      ensures Valid()
      ensures var fp := RequestFingerprint(fingerprint, request);
              seenBefore == (fp in old(seen))
              && seen == old(seen) + {fp}
              && (seenBefore ==> file.present == old(file.present) && file.content == old(file.content))
              && (!seenBefore ==>
                    file.present
                    && file.content == (if old(file.present) then old(file.content) else []) + FlatFile.Line(fp))
      ensures old(Mirrored()) ==> Mirrored()
    {
      var fp := RequestFingerprint(fingerprint, request);
      if fp in seen {
        return true;
      }
      HexIsPlain(fingerprint(request));
      FlatFile.NoSpaceIsLine(fp);
      ghost var before := file.content;
      ghost var wasMirrored := Mirrored();
      seen := seen + {fp};
      file.Append(FlatFile.Line(fp));
      if wasMirrored {
        FlatFile.AppendLineKeepsShape(before, fp, file.content);
      }
      return false;
    }

    /** `request_seen` asked about `requests` one after another: the answers
        and the final set are those of claiming the requests' fingerprints in
        order, and a file that mirrored the set still does. */
    method RequestsSeen(fingerprint: Request -> seq<byte>, requests: seq<Request>) returns (answers: seq<bool>)
      requires Valid()
      modifies this, file
      ensures Valid()
      ensures answers == SeenSet.Answers(old(seen), Fingerprints(fingerprint, requests))
      ensures seen == SeenSet.After(old(seen), Fingerprints(fingerprint, requests))
      ensures old(Mirrored()) ==> Mirrored()
    {
      var fps := Fingerprints(fingerprint, requests);
      ghost var total := SeenSet.Answers(seen, fps);
      ghost var final := SeenSet.After(seen, fps);
      ghost var mirrored := Mirrored();
      answers := [];
      var i := 0;
      while i < |requests|
        invariant 0 <= i <= |requests|
        invariant Valid()
        invariant answers + SeenSet.Answers(seen, fps[i..]) == total
        invariant SeenSet.After(seen, fps[i..]) == final
        invariant mirrored ==> Mirrored()
      {
        ghost var remembered := seen;
        assert fps[i] == RequestFingerprint(fingerprint, requests[i]);
        var r := RequestSeen(fingerprint, requests[i]);
        ClaimAnswer(answers, remembered, fps, i, total);
        answers := answers + [r];
        i := i + 1;
      }
    }

    /** `close`: rewrites the file with the set in sorted order, one line per
        fingerprint. */
    method Close()
      modifies file
      ensures file.present && file.content == FlatFile.Serialize(FlatFile.Sorted(seen))
    {
      file.present := true;
      file.content := [];
      var rest := seen;
      while rest != {}
        invariant rest <= seen
        invariant file.present
        invariant file.content + FlatFile.Serialize(FlatFile.Sorted(rest))
                  == FlatFile.Serialize(FlatFile.Sorted(seen))
        decreases rest
      {
        var m := FlatFile.LeastOf(rest);
        FlatFile.SerializeSortedStep(file.content, rest, m);
        file.content := file.content + FlatFile.Line(m);
        rest := rest - {m};
      }
      assert FlatFile.Sorted({}) == [];
    }

    /** `clear`: forgets everything and deletes the file. */
    method Clear()
      modifies this, file
      ensures seen == {} && Valid()
      ensures !file.present
      ensures old(file.present) ==> file.content == []
      ensures !old(file.present) ==> file.content == old(file.content)
    {
      seen := {};
      if file.present {
        file.present := false;
        file.content := [];
      }
    }

    /** A spider that closes and a spider that then opens the same file
        share exactly the same set. */
    method CloseThenOpen()
      requires Valid()
      modifies this, file
      ensures Valid() && seen == old(seen)
      ensures file.present
    {
      Close();
      FlatFile.LoadSorted(seen);
      Open();
    }
  }

  /** Every later filter that opens a closed filter's file starts from the
      closed filter's set, which the file lists sorted and without
      repetition. */
  lemma CloseOpenRoundTrip(seen: set<string>)
    requires forall fp :: fp in seen ==> FlatFile.IsLine(fp)
    ensures FlatFile.Load(FlatFile.Serialize(FlatFile.Sorted(seen))) == seen
    ensures var listed := FlatFile.Sorted(seen);
            forall i, j :: 0 <= i < j < |listed| ==> listed[i] != listed[j]
  {
    FlatFile.LoadSorted(seen);
    FlatFile.SortedIncreasing(seen);
    var listed := FlatFile.Sorted(seen);
    forall i, j | 0 <= i < j < |listed| ensures listed[i] != listed[j] {
      FlatFile.LessIrreflexive(listed[i]);
    }
  }

  // ---------------------------------------------------------------------
  // The call sequence of tests/test_dupefilter.py, on each backend: two new
  // URLs are reported new, a repeat of the first is reported seen, and
  // `clear` leaves nothing behind.

  method SqliteScenario(db: SqliteDatabase, configured: Request -> seq<byte>, fingerprint: Request -> seq<byte>,
                        url1: Request, url2: Request, url3: Request)
      returns (seen1: Reply<bool>, seen2: Reply<bool>, seen3: Reply<bool>)
    requires !db.locked
    requires fingerprint(url3) == fingerprint(url1) != fingerprint(url2)
    requires db.hasTable ==> RequestFingerprint(fingerprint, url1) !in db.rows
                             && RequestFingerprint(fingerprint, url2) !in db.rows
    modifies db
    ensures seen1 == Ok(false) && seen2 == Ok(false) && seen3 == Ok(true)
    ensures db.hasTable && db.rows == {}
  {
    RequestFingerprintFormat(fingerprint, url1, url2);
    var dupefilter := new SqliteDupeFilter(configured);
    var _ := dupefilter.Open(db);
    seen1 := dupefilter.RequestSeen(fingerprint, url1);
    seen2 := dupefilter.RequestSeen(fingerprint, url2);
    seen3 := dupefilter.RequestSeen(fingerprint, url3);
    var _ := dupefilter.Clear();
    dupefilter.Close();
  }

  method FileScenario(file: TextFile, configured: Request -> seq<byte>, fingerprint: Request -> seq<byte>,
                      url1: Request, url2: Request, url3: Request)
      returns (seen1: bool, seen2: bool, seen3: bool)
    requires fingerprint(url3) == fingerprint(url1) != fingerprint(url2)
    requires file.present ==> RequestFingerprint(fingerprint, url1) !in FlatFile.Load(file.content)
                              && RequestFingerprint(fingerprint, url2) !in FlatFile.Load(file.content)
    modifies file
    ensures !seen1 && !seen2 && seen3
    ensures file.present && file.content == []
  {
    RequestFingerprintFormat(fingerprint, url1, url2);
    var dupefilter := new FileDupeFilter(configured, file);
    dupefilter.Open();
    seen1 := dupefilter.RequestSeen(fingerprint, url1);
    seen2 := dupefilter.RequestSeen(fingerprint, url2);
    seen3 := dupefilter.RequestSeen(fingerprint, url3);
    dupefilter.Clear();
    dupefilter.Close();
  }

  method RedisScenario(server: RedisServer, configured: Request -> seq<byte>, fingerprint: Request -> seq<byte>,
                       url1: Request, url2: Request, url3: Request)
      returns (seen1: Reply<bool>, seen2: Reply<bool>, seen3: Reply<bool>)
    requires server.reachable
    requires fingerprint(url3) == fingerprint(url1) != fingerprint(url2)
    modifies server
    ensures seen1 == Ok(false) && seen2 == Ok(false) && seen3 == Ok(true)
    ensures forall k :: k in server.keys <==> k in old(server.keys) && !MatchesPrefix("test:dupefilter", k)
  {
    RequestFingerprintFormat(fingerprint, url1, url2);
    RedisKeyInjective("test:dupefilter", RequestFingerprint(fingerprint, url1),
                      RequestFingerprint(fingerprint, url2));
    var dupefilter := new RedisDupeFilter(configured, "test:dupefilter");
    dupefilter.Open(server);
    var _ := dupefilter.Clear();
    seen1 := dupefilter.RequestSeen(fingerprint, url1);
    seen2 := dupefilter.RequestSeen(fingerprint, url2);
    seen3 := dupefilter.RequestSeen(fingerprint, url3);
    var _ := dupefilter.Clear();
    dupefilter.Close();
  }

  /** Two spiders whose filters share one Redis server and prefix: whichever
      asks first about a new request claims it, and the other is told it was
      seen, even when the spiders were configured with different request
      fingerprinters. */
  method TwoSpiders(server: RedisServer, configuredA: Request -> seq<byte>, configuredB: Request -> seq<byte>,
                    fingerprint: Request -> seq<byte>, prefix: string, request: Request)
      returns (first: Reply<bool>, second: Reply<bool>)
    requires server.reachable
    requires RedisKey(prefix, RequestFingerprint(fingerprint, request)) !in server.keys
    modifies server
    ensures first == Ok(false) && second == Ok(true)
    ensures server.keys == old(server.keys) + {RedisKey(prefix, RequestFingerprint(fingerprint, request))}
  {
    var spiderA := new RedisDupeFilter(configuredA, prefix);
    var spiderB := new RedisDupeFilter(configuredB, prefix);
    spiderA.Open(server);
    spiderB.Open(server);
    first := spiderA.RequestSeen(fingerprint, request);
    second := spiderB.RequestSeen(fingerprint, request);
  }
}
