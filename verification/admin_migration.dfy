/**
 * The data step of the migration that folds the old `admin_users` table into
 * `users`: each admin either becomes a new verified admin user or promotes
 * the users already registered under the same address; rolling the
 * migration back deletes every admin user.
 */
module AdminMigration {
  import opened Wrappers
  import opened Values

  /** A row of `users`, with the three columns the migration adds. */
  datatype UserRow = UserRow(
    id: nat, name: Value, email: Value, password: Value,
    emailVerifiedAt: Option<nat>, isVerified: bool, isAdmin: bool,
    campus: Value, school: Value, profile: Value,
    createdAt: Option<nat>, updatedAt: Option<nat>)

  /** A row of `admin_users`. */
  datatype AdminRow = AdminRow(
    name: Value, email: Value, password: Value, campus: Value, school: Value, profile: Value,
    createdAt: Option<nat>, updatedAt: Option<nat>)

  /** The `users` table: its rows and the id the next insert gets. */
  datatype Table = Table(rows: seq<UserRow>, nextId: nat)

  /** `where('email', $email)->first()`: the position of the first user with that address. */
  function FindEmail(rows: seq<UserRow>, email: Value): (r: Option<nat>)
    ensures r.Some? ==> r.value < |rows| && rows[r.value].email == email
    ensures r.Some? ==> forall j :: 0 <= j < r.value ==> rows[j].email != email
    ensures r.None? ==> forall i :: 0 <= i < |rows| ==> rows[i].email != email
  {
    if rows == [] then None
    else if rows[0].email == email then Some(0)
    else match FindEmail(rows[1..], email)
      case None => None
      case Some(k) => Some(k + 1)
  }

  /** `$value ?? now()` for a timestamp. */
  function OrNow(t: Option<nat>, now: nat): nat {
    if t.Some? then t.value else now
  }

  /** The insert for an admin with no user yet: a verified admin with the admin's name, password and profile. */
  function NewUser(id: nat, admin: AdminRow, now: nat): (u: UserRow)
    ensures u.isAdmin && u.isVerified && u.email == admin.email
    ensures u.name == admin.name && u.password == admin.password
    ensures u.createdAt == Some(OrNow(admin.createdAt, now)) && u.updatedAt == Some(OrNow(admin.updatedAt, now))
  {
    UserRow(id, admin.name, admin.email, admin.password, Some(now), true, true,
            admin.campus, admin.school, admin.profile,
            Some(OrNow(admin.createdAt, now)), Some(OrNow(admin.updatedAt, now)))
  }

  /** The update of one user registered under the admin's address. */
  function Promoted(u: UserRow, admin: AdminRow, now: nat): UserRow {
    u.(isAdmin := true, campus := admin.campus, school := admin.school, profile := admin.profile,
       updatedAt := Some(now))
  }

  /**
   * `where('email', ...)->update([...])`: every user with the admin's
   * address is made admin and given the admin's campus, school and profile;
   * name, password and verification are kept, and no row is added.
   */
  function Promote(rows: seq<UserRow>, admin: AdminRow, now: nat): (r: seq<UserRow>)
    ensures |r| == |rows|
    ensures forall i :: 0 <= i < |rows| ==>
              r[i] == if rows[i].email == admin.email then Promoted(rows[i], admin, now) else rows[i]
  {
    if rows == [] then []
    else [if rows[0].email == admin.email then Promoted(rows[0], admin, now) else rows[0]]
         + Promote(rows[1..], admin, now)
  }

  /** One pass of the loop body for one admin. */
  function MigrateOne(t: Table, admin: AdminRow, now: nat): Table {
    if FindEmail(t.rows, admin.email).None? then Table(t.rows + [NewUser(t.nextId, admin, now)], t.nextId + 1)
    else Table(Promote(t.rows, admin, now), t.nextId)
  }

  /** The loop over the admin rows, in table order. */
  function MigrateAll(t: Table, admins: seq<AdminRow>, now: nat): Table
  {
    if admins == [] then t
    else MigrateOne(MigrateAll(t, admins[..|admins| - 1], now), admins[|admins| - 1], now)
  }

  /** Some user has the address, and every user with it is an admin. */
  predicate AdminAddress(rows: seq<UserRow>, email: Value) {
    (exists i :: 0 <= i < |rows| && rows[i].email == email)
    && forall i :: 0 <= i < |rows| && rows[i].email == email ==> rows[i].isAdmin
  }

  /** No two users share an address (what a unique index on `users.email` ensures). */
  predicate DistinctEmails(rows: seq<UserRow>) {
    forall i, j :: 0 <= i < j < |rows| ==> rows[i].email != rows[j].email
  }

  /**
   * One step makes the admin's address an admin address and keeps every
   * address that already was one.
   */
  lemma MigrateOneAdmins(t: Table, admin: AdminRow, now: nat, earlier: seq<AdminRow>)
    requires forall k :: 0 <= k < |earlier| ==> AdminAddress(t.rows, earlier[k].email)
    ensures AdminAddress(MigrateOne(t, admin, now).rows, admin.email)
    ensures forall k :: 0 <= k < |earlier| ==> AdminAddress(MigrateOne(t, admin, now).rows, earlier[k].email)
  {
    var r := MigrateOne(t, admin, now).rows;
    var found := FindEmail(t.rows, admin.email);
    if found.None? {
      var n := |t.rows|;
      assert r[n].email == admin.email;
      forall k | 0 <= k < |earlier| ensures AdminAddress(r, earlier[k].email) {
        var i :| 0 <= i < n && t.rows[i].email == earlier[k].email;
        assert r[i] == t.rows[i];
      }
    } else {
      assert r[found.value].email == admin.email;
      forall k | 0 <= k < |earlier| ensures AdminAddress(r, earlier[k].email) {
        var i :| 0 <= i < |t.rows| && t.rows[i].email == earlier[k].email;
        assert r[i].email == t.rows[i].email;
      }
    }
  }

  /** One step adds no second user for an address. */
  lemma MigrateOneDistinct(t: Table, admin: AdminRow, now: nat)
    requires DistinctEmails(t.rows)
    ensures DistinctEmails(MigrateOne(t, admin, now).rows)
  {
  }

  /**
   * Every user of `before` is still at its place in `after`, with its id,
   * name, address, password and verification, and still an admin if it was
   * one; rows are only added.
   */
  predicate KeepsUsers(before: seq<UserRow>, after: seq<UserRow>) {
    |before| <= |after|
    && forall i :: 0 <= i < |before| ==>
         var u, v := before[i], after[i];
         v.id == u.id && v.name == u.name && v.email == u.email && v.password == u.password
         && v.emailVerifiedAt == u.emailVerifiedAt && v.isVerified == u.isVerified
         && (u.isAdmin ==> v.isAdmin)
  }

  /** One step keeps every existing user: it only adds a row or updates the profile columns. */
  lemma MigrateOneKeepsUsers(t: Table, admin: AdminRow, now: nat)
    ensures KeepsUsers(t.rows, MigrateOne(t, admin, now).rows)
  {
  }

  /**
   * After the loop every admin's address belongs to at least one user, all
   * of whose users are admins.
   */
  lemma {:induction false} MigrateAllAdmins(t: Table, admins: seq<AdminRow>, now: nat)
    ensures forall k :: 0 <= k < |admins| ==> AdminAddress(MigrateAll(t, admins, now).rows, admins[k].email)
    decreases |admins|
  {
    if admins != [] {
      var n := |admins| - 1;
      var init := admins[..n];
      MigrateAllAdmins(t, init, now);
      var mid := MigrateAll(t, init, now);
      MigrateOneAdmins(mid, admins[n], now, init);
      var rows := MigrateAll(t, admins, now).rows;
      assert rows == MigrateOne(mid, admins[n], now).rows;
      forall k | 0 <= k < |admins| ensures AdminAddress(rows, admins[k].email) {
        if k < n {
          assert admins[k] == init[k];
        }
      }
    }
  }

  /**
   * When the addresses in `users` were distinct they still are after the
   * loop, so each admin's address then belongs to exactly one user, an admin.
   */
  lemma {:induction false} MigrateAllDistinct(t: Table, admins: seq<AdminRow>, now: nat)
    requires DistinctEmails(t.rows)
    ensures DistinctEmails(MigrateAll(t, admins, now).rows)
    decreases |admins|
  {
    if admins != [] {
      var n := |admins| - 1;
      MigrateAllDistinct(t, admins[..n], now);
      MigrateOneDistinct(MigrateAll(t, admins[..n], now), admins[n], now);
    }
  }

  /** The loop keeps every existing user, as each step does. */
  lemma {:induction false} MigrateAllKeepsUsers(t: Table, admins: seq<AdminRow>, now: nat)
    ensures KeepsUsers(t.rows, MigrateAll(t, admins, now).rows)
    decreases |admins|
  {
    if admins != [] {
      var n := |admins| - 1;
      var mid := MigrateAll(t, admins[..n], now);
      MigrateAllKeepsUsers(t, admins[..n], now);
      MigrateOneKeepsUsers(mid, admins[n], now);
    }
  }

  /** `down`'s delete: the users that are not admins, in their order. */
  function WithoutAdmins(rows: seq<UserRow>): (r: seq<UserRow>)
    ensures |r| <= |rows|
    ensures forall u :: u in r <==> u in rows && !u.isAdmin
  {
    if rows == [] then [] else (if rows[0].isAdmin then [] else [rows[0]]) + WithoutAdmins(rows[1..])
  }

  /** The `users` table the migration changes in place. */
  class Users {
    var rows: seq<UserRow>
    var nextId: nat

    constructor (rows: seq<UserRow>, nextId: nat)
      ensures this.rows == rows && this.nextId == nextId
    {
      this.rows := rows;
      this.nextId := nextId;
    }

    /**
     * `up`'s data step: nothing changes without an `admin_users` table;
     * otherwise each admin row is merged in turn.
     */
    method Up(adminUsers: Option<seq<AdminRow>>, now: nat)
      modifies this
      ensures adminUsers.None? ==> rows == old(rows) && nextId == old(nextId)
      ensures adminUsers.Some? ==> Table(rows, nextId) == MigrateAll(old(Table(rows, nextId)), adminUsers.value, now)
    {
      if adminUsers.None? {
        return;
      }
      var admins := adminUsers.value;
      ghost var start := Table(rows, nextId);
      var i := 0;
      while i < |admins|
        invariant 0 <= i <= |admins|
        invariant Table(rows, nextId) == MigrateAll(start, admins[..i], now)
      {
        assert admins[..i + 1][..i] == admins[..i];
        var admin := admins[i];
        var existing := FindEmail(rows, admin.email);
        if existing.None? {
          rows := rows + [NewUser(nextId, admin, now)];
          nextId := nextId + 1;
        } else {
          rows := Promote(rows, admin, now);
        }
        i := i + 1;
      }
      assert admins[..i] == admins;
    }

    /** `down`'s data step: every admin user is deleted, whether the migration created it or promoted it. */
    method Down()
      modifies this
      ensures rows == WithoutAdmins(old(rows)) && nextId == old(nextId)
    {
      rows := WithoutAdmins(rows);
    }
  }

  /**
   * Rolling back does not restore a promoted user: a user who existed before
   * `up` under an admin's address is gone after `up` and `down`.
   */
  lemma PromotedUserLostByRollback(t: Table, admins: seq<AdminRow>, now: nat, i: nat, k: nat)
    requires i < |t.rows| && k < |admins| && t.rows[i].email == admins[k].email
    ensures forall u :: u in WithoutAdmins(MigrateAll(t, admins, now).rows) ==> u.email != t.rows[i].email
  {
    MigrateAllAdmins(t, admins, now);
  }
}
