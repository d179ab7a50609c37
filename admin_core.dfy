/** What db_amin.py and DB_admin.py share: the `admin` table of `(username, password)`
    rows, bcrypt reduced to an abstract hash, and the queries both revisions run. */
module AdminCore {
  import opened Common
  import Text

  /** A stored `password` value: a bcrypt hash of some password, or a value bcrypt
      cannot parse (written by something other than `db_add_admin`). The hash is
      modelled without salt or cost: it identifies the password it was made from. */
  datatype Stored = Bcrypt(of: string) | Garbage(raw: string)

  /** `bcrypt.hashpw(password, bcrypt.gensalt())`. */
  function Hash(password: string): (h: Stored)
    ensures h.Bcrypt?
  {
    Bcrypt(password)
  }

  /** `bcrypt.checkpw`: a verdict, or the ValueError raised on a malformed hash. */
  datatype CheckPw = Verdict(matches: bool) | InvalidHash

  function CheckPassword(password: string, stored: Stored): (c: CheckPw)
    ensures stored == Hash(password) ==> c == Verdict(true)
    ensures stored.Bcrypt? && stored != Hash(password) ==> c == Verdict(false)
    ensures stored.Garbage? ==> c == InvalidHash
  {
    match stored
    case Bcrypt(p) => Verdict(p == password)
    case Garbage(_) => InvalidHash
  }

  /** A row of `admin`. */
  datatype AdminRow = AdminRow(username: string, hash: Stored)

  predicate HasUser(rows: seq<AdminRow>, username: string)
  {
    exists i :: 0 <= i < |rows| && rows[i].username == username
  }

  /** `result[0][0]` of `SELECT password FROM admin WHERE username = ?`, in table order. */
  function FirstHash(rows: seq<AdminRow>, username: string): (h: Option<Stored>)
    ensures h.None? <==> !HasUser(rows, username)
    ensures h.Some? ==> exists i :: 0 <= i < |rows| && rows[i] == AdminRow(username, h.value)
                          && forall j :: 0 <= j < i ==> rows[j].username != username
  {
    if |rows| == 0 then None
    else if rows[0].username == username then Some(rows[0].hash)
    else
      var h := FirstHash(rows[1..], username);
      assert HasUser(rows, username) ==> HasUser(rows[1..], username) by {
        if HasUser(rows, username) {
          var i :| 0 <= i < |rows| && rows[i].username == username;
          assert rows[1..][i - 1].username == username;
        }
      }
      assert HasUser(rows[1..], username) ==> HasUser(rows, username) by {
        if HasUser(rows[1..], username) {
          var i :| 0 <= i < |rows[1..]| && rows[1..][i].username == username;
          assert rows[i + 1].username == username;
        }
      }
      if h.Some? then
        var i :| 0 <= i < |rows[1..]| && rows[1..][i] == AdminRow(username, h.value)
                 && forall j :: 0 <= j < i ==> rows[1..][j].username != username;
        assert rows[i + 1] == AdminRow(username, h.value);
        assert forall j :: 0 <= j < i + 1 ==> rows[j].username != username by {
          forall j | 0 <= j < i + 1 ensures rows[j].username != username {
            if j > 0 {
              assert rows[j] == rows[1..][j - 1];
            }
          }
        }
        h
      else h
  }

  /** `db_check_admin` on a table that answers: the first row with the username decides;
      an unknown username and a malformed hash (ValueError, printed) both give false. */
  function LoginAccepted(rows: seq<AdminRow>, username: string, password: string): (ok: bool)
    ensures ok ==> HasUser(rows, username)
  {
    match FirstHash(rows, username)
    case None => false
    case Some(h) => CheckPassword(password, h) == Verdict(true)
  }

  /** `DELETE FROM admin WHERE username = ?`. */
  function RemoveUser(rows: seq<AdminRow>, username: string): (r: seq<AdminRow>)
    ensures forall x :: x in r ==> x.username != username
    ensures forall x: AdminRow :: x.username != username ==> multiset(r)[x] == multiset(rows)[x]
  {
    if |rows| == 0 then []
    else
      var tail := RemoveUser(rows[1..], username);
      assert rows == [rows[0]] + rows[1..];
      if rows[0].username == username then tail else [rows[0]] + tail
  }

  /** The delete keeps the surviving rows in table order. */
  lemma {:induction false} RemoveUserKeepsOrder(a: seq<AdminRow>, b: seq<AdminRow>, username: string)
    ensures RemoveUser(a + b, username) == RemoveUser(a, username) + RemoveUser(b, username)
  {
    if |a| == 0 {
      assert a + b == b;
    } else {
      RemoveUserKeepsOrder(a[1..], b, username);
      assert a == [a[0]] + a[1..];
      Text.Associate([a[0]], a[1..], b);
      RemoveUserKeepsOrderStep(a[0], a[1..], b, username);
    }
  }

  lemma RemoveUserKeepsOrderStep(h: AdminRow, t: seq<AdminRow>, b: seq<AdminRow>, username: string)
    requires RemoveUser(t + b, username) == RemoveUser(t, username) + RemoveUser(b, username)
    ensures RemoveUser([h] + (t + b), username) == RemoveUser([h] + t, username) + RemoveUser(b, username)
  {
    if h.username == username {
      RemoveUserConsDrop(h, t, username);
      RemoveUserConsDrop(h, t + b, username);
    } else {
      RemoveUserConsKeep(h, t, username);
      RemoveUserConsKeep(h, t + b, username);
      Text.Associate([h], RemoveUser(t, username), RemoveUser(b, username));
    }
  }

  lemma RemoveUserConsDrop(h: AdminRow, t: seq<AdminRow>, username: string)
    requires h.username == username
    ensures RemoveUser([h] + t, username) == RemoveUser(t, username)
  {
    assert ([h] + t)[1..] == t;
  }

  lemma RemoveUserConsKeep(h: AdminRow, t: seq<AdminRow>, username: string)
    requires h.username != username
    ensures RemoveUser([h] + t, username) == [h] + RemoveUser(t, username)
  {
    assert ([h] + t)[1..] == t;
  }


  /** `UPDATE admin SET password = ? WHERE username = ?`. */
  function SetHash(rows: seq<AdminRow>, username: string, h: Stored): (r: seq<AdminRow>)
    ensures |r| == |rows|
    ensures forall i :: 0 <= i < |rows| ==>
      r[i] == if rows[i].username == username then AdminRow(username, h) else rows[i]
  {
    if |rows| == 0 then []
    else
      var head := if rows[0].username == username then AdminRow(username, h) else rows[0];
      [head] + SetHash(rows[1..], username, h)
  }

  /** `[row[0] for row in SELECT username FROM admin]`. */
  function Usernames(rows: seq<AdminRow>): (names: seq<string>)
    ensures |names| == |rows|
    ensures forall i :: 0 <= i < |rows| ==> names[i] == rows[i].username
  {
    if |rows| == 0 then [] else [rows[0].username] + Usernames(rows[1..])
  }

  /** The first matching row of a concatenation lies in its first part when it can. */
  lemma {:induction false} FirstHashAppend(rows: seq<AdminRow>, extra: seq<AdminRow>, username: string)
    ensures FirstHash(rows + extra, username)
         == if HasUser(rows, username) then FirstHash(rows, username) else FirstHash(extra, username)
  {
    if |rows| == 0 {
      assert rows + extra == extra;
    } else {
      assert (rows + extra)[1..] == rows[1..] + extra;
      assert (rows + extra)[0] == rows[0];
      FirstHashAppend(rows[1..], extra, username);
      if rows[0].username != username {
        assert HasUser(rows[1..], username) ==> HasUser(rows, username) by {
          if HasUser(rows[1..], username) {
            var i :| 0 <= i < |rows[1..]| && rows[1..][i].username == username;
            assert rows[i + 1].username == username;
          }
        }
        assert HasUser(rows, username) ==> HasUser(rows[1..], username) by {
          if HasUser(rows, username) {
            var i :| 0 <= i < |rows| && rows[i].username == username;
            assert rows[1..][i - 1].username == username;
          }
        }
      } else {
        assert HasUser(rows, username) by { assert rows[0].username == username; }
      }
    }
  }

  /** A new admin can log in with the password just stored, and with no other. */
  lemma LoginAfterAdd(rows: seq<AdminRow>, username: string, password: string, attempt: string)
    requires !HasUser(rows, username)
    ensures LoginAccepted(rows + [AdminRow(username, Hash(password))], username, attempt) <==> attempt == password
  {
    FirstHashAppend(rows, [AdminRow(username, Hash(password))], username);
  }

  /** Adding a second row for an existing username does not change who can log in:
      the first row still decides. */
  lemma AddForExistingUserIsShadowed(rows: seq<AdminRow>, username: string, password: string, attempt: string)
    requires HasUser(rows, username)
    ensures LoginAccepted(rows + [AdminRow(username, Hash(password))], username, attempt)
         == LoginAccepted(rows, username, attempt)
  {
    FirstHashAppend(rows, [AdminRow(username, Hash(password))], username);
  }

  /** After a password update for an existing username, exactly the new password logs in. */
  lemma LoginAfterUpdate(rows: seq<AdminRow>, username: string, password: string, attempt: string)
    requires HasUser(rows, username)
    ensures LoginAccepted(SetHash(rows, username, Hash(password)), username, attempt) <==> attempt == password
  {
    var after := SetHash(rows, username, Hash(password));
    var k :| 0 <= k < |rows| && rows[k].username == username;
    assert after[k].username == username;
    var h := FirstHash(after, username);
    var i :| 0 <= i < |after| && after[i] == AdminRow(username, h.value);
    assert after[i] == AdminRow(username, Hash(password));
  }

  /** A malformed stored hash in the deciding row rejects every password instead of raising. */
  lemma MalformedHashRejects(rows: seq<AdminRow>, username: string, raw: string, attempt: string)
    requires FirstHash(rows, username) == Some(Garbage(raw))
    ensures !LoginAccepted(rows, username, attempt)
  {
  }
}
