/** DB_admin.py: the admin store that catches `sqlite3.Error`. `db_execute` prints the
    error and returns None, leaving the table as it was; `fault` says whether the
    statement of a call raised. */
module TolerantAdmin {
  import opened Common
  import opened AdminCore

  /** What `list_admins` hands back: a list, None, or an exception that escapes. */
  datatype AdminList = Listed(names: seq<string>) | NoList | ListRaised(exception: string)

  /** `list_admins` as written: on a failed query `db_execute` returns None and the list
      comprehension over None raises TypeError, which `except sqlite3.Error` does not catch. */
  function ListAdminsAsWritten(rows: seq<AdminRow>, fault: bool): (r: AdminList)
    ensures fault ==> r == ListRaised("TypeError")
    ensures !fault ==> r == Listed(Usernames(rows))
  {
    if fault then ListRaised("TypeError") else Listed(Usernames(rows))
  }

  /** The failure the `except` branch was written for never reaches it: it escapes. */
  lemma ListAdminsAsWrittenEscapes()
    ensures ListAdminsAsWritten([AdminRow("root", Hash("password1"))], true) == ListRaised("TypeError")
    ensures ListAdminsAsWritten([AdminRow("root", Hash("password1"))], true) != NoList
  {
  }

  class AdminTable {
    var rows: seq<AdminRow>

    constructor (existing: seq<AdminRow>)
      ensures rows == existing
    {
      rows := existing;
    }

    /** `db_add_admin`: no empty-name guard; a failed insert leaves the table unchanged. */
    method AddAdmin(username: string, password: string, fault: bool)
      modifies this
      ensures rows == if fault then old(rows) else old(rows) + [AdminRow(username, Hash(password))]
    {
      var hashed := Hash(password);
      if !fault {
        rows := rows + [AdminRow(username, hashed)];
      }
    }

    /** `db_delete_admin`: no empty-name guard (only rows whose username is "" go). */
    method DeleteAdmin(username: string, fault: bool)
      modifies this
      ensures rows == if fault then old(rows) else RemoveUser(old(rows), username)
    {
      if !fault {
        rows := RemoveUser(rows, username);
      }
    }

    /** `db_check_admin`: a failed query reads as an empty result and gives false. */
    method CheckAdmin(username: string, password: string, fault: bool) returns (ok: bool)
      ensures ok <==> !fault && (exists i :: 0 <= i < |rows| && rows[i].username == username
                                   && (forall j :: 0 <= j < i ==> rows[j].username != username)
                                   && rows[i].hash == Hash(password))
    {
      if fault {
        return false;
      }
      ok := LoginAccepted(rows, username, password);
      if !ok && FirstHash(rows, username).Some? {
        var h := FirstHash(rows, username).value;
        forall i | 0 <= i < |rows| && rows[i].username == username
                   && (forall j :: 0 <= j < i ==> rows[j].username != username)
          ensures rows[i].hash != Hash(password)
        {
          var k :| 0 <= k < |rows| && rows[k] == AdminRow(username, h)
                   && forall j :: 0 <= j < k ==> rows[j].username != username;
          assert !(k < i) && !(i < k);
        }
      }
    }

    /** `db_admin_exists`: a failed count reads as 0. */
    method AdminExists(fault: bool) returns (exists_: bool)
      ensures exists_ <==> !fault && |rows| > 0
    {
      var count := if fault then 0 else |rows|;
      exists_ := count > 0;
    }

    /** `list_admins` with the failure handled as the `except` branch intends: None.
        It never raises. */
    method ListAdmins(fault: bool) returns (result: AdminList)
      ensures !result.ListRaised?
      ensures fault <==> result == NoList
      ensures !fault ==> result.Listed? && |result.names| == |rows|
                         && forall i :: 0 <= i < |rows| ==> result.names[i] == rows[i].username
    {
      if fault {
        return NoList;
      }
      result := Listed(Usernames(rows));
    }

    /** `db_update_admin_password`: a failed update leaves the table unchanged. */
    method UpdateAdminPassword(username: string, password: string, fault: bool)
      modifies this
      ensures rows == if fault then old(rows) else SetHash(old(rows), username, Hash(password))
    {
      var hashed := Hash(password);
      if !fault {
        rows := SetHash(rows, username, hashed);
      }
    }
  }
}
