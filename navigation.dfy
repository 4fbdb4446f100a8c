/** The app's entry point: which pages each role may open. */
module Navigation {
  import opened Wrappers
  import opened Text

  /** The keys of the page table. */
  datatype PageKey = Home | Catalogo | Cadastro | Validacao | NaoAprovados | Atualizacao | Exclusao | Usuarios

  /** The page table's keys in its order. */
  const PageKeys: seq<PageKey> :=
    [Home, Catalogo, Cadastro, Validacao, NaoAprovados, Atualizacao, Exclusao, Usuarios]

  /** The position of a key in the page table. */
  function KeyIndex(k: PageKey): (i: nat)
    ensures i < |PageKeys| && PageKeys[i] == k
  {
    match k
    case Home => 0
    case Catalogo => 1
    case Cadastro => 2
    case Validacao => 3
    case NaoAprovados => 4
    case Atualizacao => 5
    case Exclusao => 6
    case Usuarios => 7
  }

  /** The script each page runs. */
  function Script(k: PageKey): string {
    match k
    case Home => "pages/1_Home.py"
    case Catalogo => "pages/4_Catalogo.py"
    case Cadastro => "pages/2_Cadastro.py"
    case Validacao => "pages/3_Validacao.py"
    case NaoAprovados => "pages/6_NaoAprovados.py"
    case Atualizacao => "pages/5_Atualizacao.py"
    case Exclusao => "pages/7_Exclusao.py"
    case Usuarios => "pages/8_Usuarios.py"
  }

  /** The three keys of the role matrix. */
  datatype Role = User | Operacional | Admin

  /** Lookup of a normalised role name among the matrix keys. */
  function MatrixRole(name: string): (r: Option<Role>)
    ensures r == Some(User) <==> name == "USER"
    ensures r == Some(Operacional) <==> name == "OPERACIONAL"
    ensures r == Some(Admin) <==> name == "ADMIN"
  {
    if name == "USER" then Some(User)
    else if name == "OPERACIONAL" then Some(Operacional)
    else if name == "ADMIN" then Some(Admin)
    else None
  }

  /** The matrix entry of a role; ADMIN's is the whole page table in its order. */
  function RolePages(r: Role): seq<PageKey> {
    match r
    case User => [Home, Catalogo]
    case Operacional => [Home, Catalogo, Cadastro, NaoAprovados]
    case Admin => PageKeys
  }

  /** `(role or "USER").upper().strip()` */
  function NormalizeRole(role: Option<string>): (r: string)
    ensures role.None? || role.value == "" ==> r == Strip(Upper("USER"))
    ensures role.Some? && role.value != "" ==> r == Strip(Upper(role.value))
  {
    Strip(Upper(if role.None? || role.value == "" then "USER" else role.value))
  }

  /** `ROLE_MATRIX.get(role, ROLE_MATRIX["USER"])` */
  function RoleKeys(role: Option<string>): (keys: seq<PageKey>)
    ensures MatrixRole(NormalizeRole(role)).Some? ==> keys == RolePages(MatrixRole(NormalizeRole(role)).value)
    ensures MatrixRole(NormalizeRole(role)).None? ==> keys == RolePages(User)
  {
    match MatrixRole(NormalizeRole(role))
    case Some(r) => RolePages(r)
    case None => RolePages(User)
  }

  /** `pages_for_role(role)`: the pages of the role's keys, in the keys' order. */
  function PagesForRole(role: Option<string>): (r: seq<string>)
    ensures |r| == |RoleKeys(role)|
    ensures forall i :: 0 <= i < |r| ==> r[i] == Script(RoleKeys(role)[i])
  {
    var keys := RoleKeys(role);
    seq(|keys|, i requires 0 <= i < |keys| => Script(keys[i]))
  }

  /** Every matrix entry lists pages of the table, each once. */
  lemma MatrixNamesPages(r: Role)
    ensures forall k :: k in RolePages(r) ==> k in PageKeys
    ensures forall i, j :: 0 <= i < j < |RolePages(r)| ==> RolePages(r)[i] != RolePages(r)[j]
  {
  }

  /** USER's pages are OPERACIONAL's, which are ADMIN's. */
  lemma RolesNested(k: PageKey)
    ensures k in RolePages(User) ==> k in RolePages(Operacional)
    ensures k in RolePages(Operacional) ==> k in RolePages(Admin)
  {
  }

  lemma UserNormal()
    ensures Strip(Upper("USER")) == "USER"
  {
    var u := Upper("USER");
    assert u[0] == 'U' && u[1] == 'S' && u[2] == 'E' && u[3] == 'R';
    assert u == "USER";
    StripNoEnds("USER");
  }

  /** No role, an empty role and an unknown role all get USER's pages. */
  lemma DefaultsToUser(role: Option<string>)
    requires role.None? || role.value == "" || MatrixRole(NormalizeRole(role)).None?
    ensures PagesForRole(role) == PagesForRole(Some("USER"))
    ensures PagesForRole(role) == ["pages/1_Home.py", "pages/4_Catalogo.py"]
  {
    UserNormal();
    UserScripts(role);
    UserScripts(Some("USER"));
  }

  lemma UserScripts(role: Option<string>)
    requires RoleKeys(role) == [Home, Catalogo]
    ensures PagesForRole(role) == ["pages/1_Home.py", "pages/4_Catalogo.py"]
  {
  }

  /** The role's letter case does not matter. */
  lemma RoleCaseInsensitive(role: string)
    ensures NormalizeRole(Some(Upper(role))) == NormalizeRole(Some(role))
  {
    UpperIdempotent(role);
  }

  /** Neither does a leading blank. */
  lemma RoleLeadingBlank(role: string)
    requires role != ""
    ensures NormalizeRole(Some(" " + role)) == NormalizeRole(Some(role))
  {
    var u := Upper(" " + role);
    assert u == " " + Upper(role) by {
      assert (" " + role)[1..] == role;
    }
    assert u[1..] == Upper(role);
    assert TrimLeft(u) == TrimLeft(Upper(role));
  }

  /** ADMIN, however spelled, gets every page, in the table's order. */
  lemma AdminGetsAll(role: Option<string>)
    requires NormalizeRole(role) == "ADMIN"
    ensures |PagesForRole(role)| == |PageKeys|
    ensures forall i :: 0 <= i < |PageKeys| ==> PagesForRole(role)[i] == Script(PageKeys[i])
    ensures forall k: PageKey :: Script(k) in PagesForRole(role)
  {
    assert RoleKeys(role) == PageKeys;
    forall k: PageKey ensures Script(k) in PagesForRole(role) {
      assert PagesForRole(role)[KeyIndex(k)] == Script(k);
    }
  }
}
