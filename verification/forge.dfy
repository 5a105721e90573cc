/**
 * Repository coordinates (src/forge.rs, src/github.rs): plain records that
 * name one snapshot of a repository on a forge. Nothing here changes after
 * construction.
 */
module Forge {

  datatype ForgeKind = GitHub | GitLab

  /** `forge::Tree`: host, owner namespace, repository name, revision and forge kind. */
  datatype Tree = Tree(hostname: string, namespace: string, name: string, rev: string, forge: ForgeKind)

  /** `github::GitHubTree`, the older coordinate without a forge kind. */
  datatype GitHubTree = GitHubTree(hostname: string, namespace: string, name: string, rev: string)

  /** `Tree::default()`. */
  const DefaultTree: Tree := Tree("gitlab.com", "balatro-mod-index", "repo", "main", GitLab)

  /** `GitHubTree::default()`. */
  const DefaultGitHubTree: GitHubTree := GitHubTree("github.com", "kasimeka", "bmm-index-ng", "main")
}
