/**
  `getUserAgent(isMonorepo)`: which package manager the generated project
  is set up for. A monorepo always uses pnpm; otherwise the
  `npm_config_user_agent` environment variable (passed in here, `None`
  when it is unset) is searched for `pnpm`, then for `yarn`.
*/
module UserAgent {
  import opened Wrappers
  import opened Strings

  function GetUserAgent(isMonorepo: bool, agentVariable: Option<string>): (r: string)
    ensures r == "pnpm" || r == "yarn" || r == "npm"
    ensures isMonorepo ==> r == "pnpm"
    ensures !isMonorepo ==> (r == "pnpm" <==> Contains(agentVariable.GetOr(""), "pnpm"))
    ensures !isMonorepo ==>
      (r == "yarn" <==> !Contains(agentVariable.GetOr(""), "pnpm") && Contains(agentVariable.GetOr(""), "yarn"))
  {
    if isMonorepo then "pnpm"
    else
      var agent := agentVariable.GetOr("");
      SearchIsContains(agent, "pnpm");
      SearchIsContains(agent, "yarn");
      if Search(agent, "pnpm") then "pnpm"
      else if Search(agent, "yarn") then "yarn"
      else "npm"
  }

  /** An unset variable reads as the empty string, which names neither pnpm nor yarn. */
  lemma UnsetAgentIsNpm()
    ensures GetUserAgent(false, None) == "npm"
  {
    assert !Contains("", "pnpm") && !Contains("", "yarn") by {
      SearchIsContains("", "pnpm");
      SearchIsContains("", "yarn");
    }
  }

  /** An agent string that mentions both names picks pnpm. */
  lemma PnpmBeforeYarn()
    ensures GetUserAgent(false, Some("yarn/1.22.0 pnpm/8.0.0")) == "pnpm"
  {
    var a := "yarn/1.22.0 pnpm/8.0.0";
    assert OccursAt(a, "pnpm", 12) by {
      assert a[12..16] == "pnpm";
    }
  }
}
