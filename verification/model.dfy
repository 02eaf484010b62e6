/** The record types the commands pass around. */
module Model {

  /** A credential as read from a per-profile credential file: the second
      password is only present for the `dev` profile. */
  datatype UserCredential = UserCredential(
    username: string,
    password: string,
    secondPassword: string,
    yFlag: string)

  /** A credential as kept in the keyring and fed to the VPN client: `push`
      answers the second-factor prompt, `yFlag` the banner prompt. */
  datatype LoginCredential = LoginCredential(
    username: string,
    password: string,
    push: string,
    yFlag: string)

  /** One entry of the GitHub releases listing. */
  datatype GitHubRelease = GitHubRelease(
    tagName: string,
    name: string,
    body: string,
    htmlUrl: string,
    prerelease: bool,
    draft: bool)
}
