/**
 * The request scenarios of the service's API test suite, replayed against the model of a
 * freshly created store. Each lemma takes the name the test sends as a parameter pinned to
 * the test's literal, and states the status code and the parts of the body the suite expects.
 */
module BlacklistScenarios {
  import opened Wrappers
  import opened Text
  import opened BlacklistStore
  import opened BlacklistRoutes

  /** `GET /` on a fresh store: the five samples, with their statistics as metadata. */
  lemma ListSeeded(now: int)
    ensures var resp := ListAll(Seeded(), now);
      && resp.status == 200 && resp.success
      && resp.body.data == SampleEntries() && resp.body.total == 5
  {
    SeededListing();
  }

  /** `GET /stats` on a fresh store: five entries, two `security`, two `policy`, one
      `compliance`, last updated at 2024-03-10T09:15:00Z. */
  lemma StatsSeeded(now: int)
    ensures var resp := GetStats(Seeded(), now);
      && resp.status == 200 && resp.success
      && resp.body.stats
         == Stats(5, map["security" := 2, "policy" := 2, "compliance" := 1], 1710062100000)
  {
    SeededStats(now);
  }

  /** `GET /check/malicious_user`: a seeded name is reported with its entry. */
  lemma CheckSeededName(name: string, now: int)
    requires name == "malicious_user"
    ensures var resp := Check(Seeded(), name, now);
      && resp.status == 200 && resp.success
      && resp.body.name == name && resp.body.isBlacklisted
      && resp.body.entry == Some(SampleEntries()[0])
      && resp.body.entry.value.category == Some("security")
  {
    TrimmedIsFixed(name);
    SampleNamesAreKeys();
  }

  /** `GET /check/clean_user`: an unknown name is reported clean, with no entry. */
  lemma CheckUnknownName(name: string, now: int)
    requires name == "clean_user"
    ensures var resp := Check(Seeded(), name, now);
      && resp.status == 200 && resp.success
      && resp.body.name == name && !resp.body.isBlacklisted && resp.body.entry.None?
  {
    TrimmedIsFixed(name);
    NotSeeded(name);
  }

  /** The names the suite uses for entries it expects to be absent are not blacklisted at
      start: each differs from every sample key in length or in its first letter. */
  lemma NotSeeded(name: string)
    requires name in {"clean_user", "test_new_user", "test_delete_user", "non_existent_user"}
    ensures !IsBlacklisted(Seeded(), name)
  {
    var key := Lower(name);
    assert |key| == |name| && key[0] == name[0];
    SeededKeyShapes();
  }

  /** `GET /check/%20`: a name that is a single space is refused. */
  lemma CheckBlankName(name: string, now: int)
    requires name == " "
    ensures var resp := Check(Seeded(), name, now);
      && resp.status == 400 && !resp.success && resp.body.error == "Invalid name parameter"
  {
  }

  /** `POST /` with a new name: created, with the fields echoed and a server timestamp. */
  lemma AddNewName(name: string, now: int)
    requires name == "test_new_user"
    ensures var req := AddRequest(Str(name), Some("Test entry for API testing"),
                                  Some("test_suite"), Some("other"));
      var resp := AddOutcome(Seeded(), req, now).0;
      && resp.status == 201 && resp.success
      && resp.body.stored == Entry(name, Some("Test entry for API testing"), now,
                                   Some("test_suite"), Some("other"))
  {
    TrimmedIsFixed(name);
    NotSeeded(name);
    var req := AddRequest(Str(name), Some("Test entry for API testing"),
                          Some("test_suite"), Some("other"));
    AddFillsDefaults(Seeded(), req, now);
  }

  /** `POST /` with a seeded name: refused as a duplicate, the store unchanged. */
  lemma AddSeededName(name: string, now: int)
    requires name == "malicious_user"
    ensures var req := AddRequest(Str(name), Some("Duplicate test"), Some("test_suite"), None);
      var out := AddOutcome(Seeded(), req, now);
      && out.0.status == 409 && out.0.body.error == "Entry already exists"
      && out.1 == Seeded()
  {
    TrimmedIsFixed(name);
    SampleNamesAreKeys();
  }

  /** `POST /` without a name: refused as invalid. */
  lemma AddWithoutName(now: int)
    ensures var req := AddRequest(Missing, Some("Missing name field"), None, None);
      var out := AddOutcome(Seeded(), req, now);
      && out.0.status == 400 && out.0.body.error == "Invalid name" && out.1 == Seeded()
  {
  }

  /** `POST /` of `test_delete_user` and then `DELETE /test_delete_user`: 201, then 200. */
  lemma AddThenDeleteName(name: string, t1: int, t2: int)
    requires name == "test_delete_user"
    ensures var req := AddRequest(Str(name), Some("To be deleted"), Some("test_suite"), None);
      var out1 := AddOutcome(Seeded(), req, t1);
      var out2 := RemoveOutcome(out1.1, name, t2);
      && out1.0.status == 201 && out2.0.status == 200 && out2.0.success
      && out2.1 == Seeded()
  {
    TrimmedIsFixed(name);
    NotSeeded(name);
    AddThenDeleteRestores(Seeded(), AddRequest(Str(name), Some("To be deleted"),
                                               Some("test_suite"), None), t1, t2);
  }

  /** `DELETE /non_existent_user`: not found, the store unchanged. */
  lemma DeleteUnknownName(name: string, now: int)
    requires name == "non_existent_user"
    ensures var out := RemoveOutcome(Seeded(), name, now);
      && out.0.status == 404 && out.0.body.error == "Entry not found" && out.1 == Seeded()
  {
    TrimmedIsFixed(name);
    NotSeeded(name);
  }
}
