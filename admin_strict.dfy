/** db_amin.py: the admin store without error handling. Every statement is assumed to
    succeed (an SQLite error would propagate to the caller). */
module StrictAdmin {
  import opened Common
  import opened AdminCore

  class AdminTable {
    /** The rows of `admin`, in insertion order (the `id` column is not modelled). */
    var rows: seq<AdminRow>

    constructor (existing: seq<AdminRow>)
      ensures rows == existing
    {
      rows := existing;
    }

    /** `db_add_admin`: appends a row with the hash of the password, even when the
        username is already taken. */
    method AddAdmin(username: string, password: string)
      modifies this
      ensures rows == old(rows) + [AdminRow(username, Hash(password))]
    {
      var hashed := Hash(password);
      rows := rows + [AdminRow(username, hashed)];
    }

    /** `db_delete_admin`: an empty name raises ValueError before the table is touched;
        otherwise every row with that username goes. */
    method DeleteAdmin(username: string) returns (status: Status)
      modifies this
      ensures username == "" ==> status == Raised("ValueError", "Admin name must be provided") && rows == old(rows)
      ensures username != "" ==> status == Done && rows == RemoveUser(old(rows), username)
    {
      if username == "" {
        return Raised("ValueError", "Admin name must be provided");
      }
      rows := RemoveUser(rows, username);
      return Done;
    }

    /** `db_check_admin`: the first row with the username must hold a hash of the
        password; no such row, a wrong password and a malformed hash all give false. */
    method CheckAdmin(username: string, password: string) returns (ok: bool)
      ensures ok <==> exists i :: 0 <= i < |rows| && rows[i].username == username
                        && (forall j :: 0 <= j < i ==> rows[j].username != username)
                        && rows[i].hash == Hash(password)
    {
      var result := FirstHash(rows, username);
      if result.Some? {
        var check := CheckPassword(password, result.value);
        if check == Verdict(true) {
          ok := true;
          return;
        }
      }
      ok := false;
      if result.Some? {
        forall i | 0 <= i < |rows| && rows[i].username == username
                   && (forall j :: 0 <= j < i ==> rows[j].username != username)
          ensures rows[i].hash != Hash(password)
        {
          var k :| 0 <= k < |rows| && rows[k] == AdminRow(username, result.value)
                   && forall j :: 0 <= j < k ==> rows[j].username != username;
          assert !(k < i) && !(i < k);
        }
      }
    }

    /** `db_admin_exists`: `SELECT COUNT(*)` always yields one row, so this is whether
        the table has any row. */
    method AdminExists() returns (exists_: bool)
      ensures exists_ <==> |rows| > 0
    {
      var count := |rows|;
      exists_ := count > 0;
    }

    /** `list_admins`: every username, one per row, in table order. */
    method ListAdmins() returns (names: seq<string>)
      ensures |names| == |rows|
      ensures forall i :: 0 <= i < |rows| ==> names[i] == rows[i].username
    {
      names := Usernames(rows);
    }

    /** `db_update_admin_password`: every row with the username gets the new hash;
        an unknown username changes nothing. */
    method UpdateAdminPassword(username: string, password: string)
      modifies this
      ensures rows == SetHash(old(rows), username, Hash(password))
    {
      var hashed := Hash(password);
      rows := SetHash(rows, username, hashed);
    }
  }
}
